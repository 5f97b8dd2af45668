/** Bucket multi-multiplication `muln` (`src/core/schemes/mcore/src/bls12381/ecp.rs`): every point
    the algorithm holds is an integer combination of the inputs, and each loop is followed on the
    vectors of coefficients. */
module Pippenger {
  import opened Vectors
  import opened Groups
  import opened Digits
  import opened LinearForms

  // ----- coefficient vectors

  /** The hexadecimal digits at position i. */
  function DigitsAt(e: seq<nat>, i: nat): (k: seq<nat>)
    ensures |k| == |e| && forall j :: 0 <= j < |e| ==> k[j] < 16
  {
    seq(|e|, j requires 0 <= j < |e| => ShiftNibbles(e[j], i) % 16)
  }

  /** Which of the first m points went to bucket b. */
  function InBucket(k: seq<nat>, m: nat, b: nat): seq<int> {
    seq(|k|, j requires 0 <= j < |k| => if j < m && k[j] == b then 1 else 0)
  }

  /** Which points lie in bucket b or above. */
  function AtLeast(k: seq<nat>, b: nat): seq<int> {
    seq(|k|, j requires 0 <= j < |k| => if k[j] >= b then 1 else 0)
  }

  /** How often the running sums from the top down to b have counted each point. */
  function Counted(k: seq<nat>, b: nat): seq<int> {
    seq(|k|, j requires 0 <= j < |k| => if k[j] >= b then k[j] - b + 1 else 0)
  }

  function Shifted(e: seq<nat>, i: nat): seq<int> {
    seq(|e|, j requires 0 <= j < |e| => ShiftNibbles(e[j], i))
  }

  lemma BucketStep(k: seq<nat>, m: nat, b: nat)
    requires m < |k|
    ensures k[m] == b ==> InBucket(k, m + 1, b) == Sum(InBucket(k, m, b), OneAt(|k|, m))
    ensures k[m] != b ==> InBucket(k, m + 1, b) == InBucket(k, m, b)
  {
  }

  lemma RunningStep(k: seq<nat>, b: nat)
    ensures AtLeast(k, b) == Sum(AtLeast(k, b + 1), InBucket(k, |k|, b))
    ensures Counted(k, b) == Sum(Counted(k, b + 1), AtLeast(k, b))
  {
  }

  lemma RunningEnds(k: seq<nat>)
    requires forall j :: 0 <= j < |k| ==> k[j] < 16
    ensures AtLeast(k, 16) == Zeros(|k|) && Counted(k, 16) == Zeros(|k|)
    ensures Counted(k, 1) == k
  {
  }

  // ----- the loops

  /** Every point goes to the bucket of its digit. */
  method FillBuckets<G(!new)>(group: AbelianGroup<G>, X: seq<G>, k: seq<nat>, B: array<G>)
    requires group.Lawful() && Points(group, X) && |k| == |X| && B.Length == 16
    requires forall j :: 0 <= j < |k| ==> k[j] < 16
    modifies B
    ensures forall b :: 0 <= b < 16 ==> B[b] == Linear(group, X, InBucket(k, |k|, b))
  {
    for b := 0 to 16
      invariant forall a :: 0 <= a < b ==> B[a] == group.unit
    {
      B[b] := group.unit;
    }
    LinearZero(group, X);
    assert forall b: nat :: InBucket(k, 0, b) == Zeros(|k|);
    for m := 0 to |X|
      invariant forall b :: 0 <= b < 16 ==> B[b] == Linear(group, X, InBucket(k, m, b))
    {
      LinearOne(group, X, m);
      LinearAdd(group, X, InBucket(k, m, k[m]), OneAt(|k|, m));
      forall b | 0 <= b < 16 ensures k[m] != b ==> InBucket(k, m + 1, b) == InBucket(k, m, b) {
        BucketStep(k, m, b);
      }
      BucketStep(k, m, k[m]);
      B[k[m]] := group.op(B[k[m]], X[m]);
    }
  }

  /** The running sums weigh bucket b with b. */
  method WeighBuckets<G(!new)>(group: AbelianGroup<G>, X: seq<G>, k: seq<nat>, B: array<G>) returns (S: G)
    requires group.Lawful() && Points(group, X) && |k| == |X| && B.Length == 16
    requires forall j :: 0 <= j < |k| ==> k[j] < 16
    requires forall b :: 0 <= b < 16 ==> B[b] == Linear(group, X, InBucket(k, |k|, b))
    ensures S == Linear(group, X, k)
  {
    var R := group.unit;
    S := group.unit;
    RunningEnds(k);
    LinearZero(group, X);
    var b := 16;
    while b > 1
      invariant 1 <= b <= 16
      invariant R == Linear(group, X, AtLeast(k, b)) && S == Linear(group, X, Counted(k, b))
    {
      b := b - 1;
      RunningStep(k, b);
      LinearAdd(group, X, AtLeast(k, b + 1), InBucket(k, |k|, b));
      LinearAdd(group, X, Counted(k, b + 1), AtLeast(k, b));
      R := group.op(R, B[b]);
      S := group.op(S, R);
    }
  }

  function Multiple(k: int, c: seq<int>): (d: seq<int>)
    ensures |d| == |c|
  {
    seq(|c|, j requires 0 <= j < |c| => k * c[j])
  }

  lemma DoubleMultiple(k: int, c: seq<int>)
    ensures Sum(Multiple(k, c), Multiple(k, c)) == Multiple(2 * k, c)
  {
    forall j | 0 <= j < |c| ensures k * c[j] + k * c[j] == (2 * k) * c[j] {
      DoubleProduct(k, c[j]);
    }
  }

  lemma DoubleProduct(p: int, c: int)
    ensures p * c + p * c == (2 * p) * c
  {
  }

  method Times16<G(!new)>(group: AbelianGroup<G>, X: seq<G>, ghost c: seq<int>, P: G) returns (R: G)
    requires group.Lawful() && Points(group, X) && |c| == |X| && P == Linear(group, X, c)
    ensures R == Linear(group, X, Multiple(16, c))
  {
    R := P;
    ghost var k := 1;
    assert Multiple(1, c) == c;
    for i := 0 to 4
      invariant R == Linear(group, X, Multiple(k, c))
      invariant (i == 0 ==> k == 1) && (i == 1 ==> k == 2) && (i == 2 ==> k == 4) && (i == 3 ==> k == 8)
                && (i == 4 ==> k == 16)
    {
      LinearAdd(group, X, Multiple(k, c), Multiple(k, c));
      DoubleMultiple(k, c);
      R := group.op(R, R);
      k := 2 * k;
    }
  }

  method Largest(e: seq<nat>) returns (m: nat)
    requires |e| >= 1
    ensures m in e && forall j :: 0 <= j < |e| ==> e[j] <= m
  {
    m := e[0];
    for i := 1 to |e|
      invariant m in e && forall j :: 0 <= j < i ==> e[j] <= m
    {
      if e[i] > m {
        m := e[i];
      }
    }
  }

  /** A number is its shifted part with the digit at that position put back. */
  lemma ShiftedStep(e: seq<nat>, i: nat)
    ensures Shifted(e, i) == Sum(Multiple(16, Shifted(e, i + 1)), DigitsAt(e, i))
  {
    forall j | 0 <= j < |e| ensures Shifted(e, i)[j] == 16 * Shifted(e, i + 1)[j] + DigitsAt(e, i)[j] {
      assert ShiftNibbles(e[j], i + 1) == ShiftNibbles(e[j], i) / 16;
    }
  }

  lemma ShiftedStarts(e: seq<nat>, m: nat, nb: nat)
    requires (forall j :: 0 <= j < |e| ==> e[j] <= m) && nb == (BitLength(m) + 3) / 4
    ensures Shifted(e, nb) == Zeros(|e|)
  {
    BitLengthBound(m);
    Pow2Monotone(BitLength(m), 4 * nb);
    forall j | 0 <= j < |e| ensures ShiftNibbles(e[j], nb) == 0 {
      ShiftedOut(e[j], nb, 0);
    }
  }

  /** `muln`: the sum of all e[j].X[j], for any number of points of any size. */
  method MulN<G(!new)>(group: AbelianGroup<G>, X: seq<G>, e: seq<nat>) returns (P: G)
    requires group.Lawful() && Points(group, X) && |e| == |X| >= 1
    ensures P == Linear(group, X, e)
  {
    var B := new G[16](_ => group.unit);
    P := group.unit;
    var m := Largest(e);
    var nb := (BitLength(m) + 3) / 4;
    LinearZero(group, X);
    ShiftedStarts(e, m, nb);
    var i := nb;
    while i > 0
      invariant 0 <= i <= nb && P == Linear(group, X, Shifted(e, i))
    {
      i := i - 1;
      var k := DigitsAt(e, i);
      FillBuckets(group, X, k, B);
      var S := WeighBuckets(group, X, k, B);
      P := Times16(group, X, Shifted(e, i + 1), P);
      ShiftedStep(e, i);
      LinearAdd(group, X, Multiple(16, Shifted(e, i + 1)), k);
      P := group.op(P, S);
    }
    assert Shifted(e, 0) == e;
  }
}
