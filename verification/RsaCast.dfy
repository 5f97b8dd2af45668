/** The cast of ids to eight bits in the combiner of `src/core/schemes/src/rsa_schemes/common.rs`: exactly which
    quorums it combines correctly. */
module RsaCast {
  import opened Groups
  import opened Interpolation
  import opened ThresholdRsa
  import Residues

  // ----- signs of products

  /** Positive for an even count, negative for an odd one. */
  ghost predicate Signed(x: int, count: int) {
    if count % 2 == 0 then x > 0 else x < 0
  }

  /** The same, or zero. */
  ghost predicate WeaklySigned(x: int, count: int) {
    if count % 2 == 0 then x >= 0 else x <= 0
  }

  lemma NegatedFactor(x: int, j: int, count: int)
    requires WeaklySigned(x, count) && j >= 0
    ensures WeaklySigned(x * -j, count + 1)
    ensures Signed(x, count) && j >= 1 ==> Signed(x * -j, count + 1)
  {
    SignOfProduct(x, -j);
  }

  /** How many ids differ from i. */
  function Others(ids: seq<int>, i: int): nat {
    if ids == [] then 0 else Others(ids[..|ids| - 1], i) + (if ids[|ids| - 1] != i then 1 else 0)
  }

  lemma {:induction false} NumeratorSign(ids: seq<int>, i: int)
    requires forall k :: 0 <= k < |ids| ==> ids[k] >= 0
    ensures WeaklySigned(Numerator(ids, i), Others(ids, i))
    ensures (forall k :: 0 <= k < |ids| ==> ids[k] >= 1) ==> Signed(Numerator(ids, i), Others(ids, i))
  {
    if ids != [] {
      var n := |ids| - 1;
      NumeratorSign(ids[..n], i);
      if ids[n] != i {
        NegatedFactor(Numerator(ids[..n], i), ids[n], Others(ids[..n], i));
      }
    }
  }

  /** At the largest id every difference is positive. */
  lemma {:induction false} DenominatorPositive(ids: seq<int>, i: int)
    requires forall k :: 0 <= k < |ids| ==> ids[k] <= i
    ensures Denominator(ids, i) > 0
  {
    if ids != [] {
      var n := |ids| - 1;
      DenominatorPositive(ids[..n], i);
      SignOfProduct(Denominator(ids[..n], i), i - ids[n]);
    }
  }

  lemma {:induction false} AllOthers(ids: seq<int>, i: int)
    requires forall k :: 0 <= k < |ids| ==> ids[k] != i
    ensures Others(ids, i) == |ids|
  {
    if ids != [] {
      AllOthers(ids[..|ids| - 1], i);
    }
  }

  lemma {:induction false} AllButOne(ids: seq<int>, k: nat)
    requires Distinct(ids) && k < |ids|
    ensures Others(ids, ids[k]) == |ids| - 1
  {
    var n := |ids| - 1;
    if k == n {
      AllOthers(ids[..n], ids[k]);
    } else {
      AllButOne(ids[..n], k);
    }
  }

  // ----- the two weights of the largest id

  lemma QuotientSign(a: int, b: int, count: int)
    requires WeaklySigned(a, count) && b > 0
    ensures WeaklySigned(TruncDiv(a, b), count)
  {
    if a == 0 {
      Residues.DivModUnique(0, b, 0, 0);
    }
    QuotientNotNegative(Magnitude(a), Magnitude(b));
  }

  lemma QuotientNotNegative(a: nat, b: nat)
    requires b > 0
    ensures a / b >= 0
  {
    Residues.DivModUnique(a, b, a / b, a % b);
    Residues.MulBounds(b, a / b);
  }

  lemma FactorialTimes(n: nat, x: int, count: int)
    ensures Signed(x, count) ==> Signed(Fac(n) * x, count)
    ensures WeaklySigned(x, count) ==> WeaklySigned(Fac(n) * x, count)
  {
    SignOfProduct(Fac(n), x);
  }

  /** Among the cast ids, which are all smaller. */
  lemma CastWeight(ids: seq<int>, n: nat, i: int)
    requires forall k :: 0 <= k < |ids| ==> 0 <= ids[k] < i
    ensures WeaklySigned(RsaWeight(ids, Fac(n), i), |ids|)
  {
    NumeratorSign(ids, i);
    AllOthers(ids, i);
    DenominatorPositive(ids, i);
    FactorialTimes(n, Numerator(ids, i), |ids|);
    QuotientSign(Fac(n) * Numerator(ids, i), Denominator(ids, i), |ids|);
  }

  /** Among the ids themselves. */
  lemma TrueWeight(ids: seq<int>, n: nat, k: nat)
    requires InRange(ids, n) && Distinct(ids) && k < |ids| && forall j :: 0 <= j < |ids| ==> ids[j] <= ids[k]
    ensures Signed(RsaWeight(ids, Fac(n), ids[k]), |ids| - 1)
  {
    var i := ids[k];
    NumeratorSign(ids, i);
    AllButOne(ids, k);
    DenominatorPositive(ids, i);
    FactorialTimes(n, Numerator(ids, i), |ids| - 1);
    DivisionExact(ids, n, i);
    ExactSign(Denominator(ids, i), TruncDiv(Fac(n) * Numerator(ids, i), NonzeroDenominator(ids, i)), |ids| - 1);
  }

  lemma ExactSign(d: int, t: int, count: int)
    requires d > 0 && Signed(d * t, count)
    ensures Signed(2 * t, count)
  {
    SignOfProduct(d, t);
  }

  lemma {:induction false} Largest(ids: seq<int>) returns (k: nat)
    requires ids != []
    ensures k < |ids| && forall j :: 0 <= j < |ids| ==> ids[j] <= ids[k]
  {
    var n := |ids| - 1;
    k := n;
    if n > 0 {
      var j := Largest(ids[..n]);
      if ids[j] > ids[n] {
        k := j;
      }
    }
  }

  // ----- exactly when the cast is right

  /** Every share gets its own weight. */
  ghost predicate RightWeights(shares: seq<RsaShare>, n: nat) {
    forall i :: 0 <= i < |shares| ==>
      RsaWeight(ByteIds(shares), Fac(n), shares[i].id) == RsaWeight(RsaIds(shares), Fac(n), shares[i].id)
  }

  /** The weight of the largest id is wrong when the id is above 255. */
  lemma LargestIsWrong(ids: seq<int>, cast: seq<int>, n: nat, k: nat)
    requires InRange(ids, n) && Distinct(ids) && |cast| == |ids| && k < |ids| && ids[k] > 255
    requires (forall j :: 0 <= j < |ids| ==> ids[j] <= ids[k]) && forall j :: 0 <= j < |cast| ==> 0 <= cast[j] < 256
    ensures RsaWeight(cast, Fac(n), ids[k]) != RsaWeight(ids, Fac(n), ids[k])
  {
    TrueWeight(ids, n, k);
    CastWeight(cast, n, ids[k]);
  }

  /** For every quorum: the weights among the cast ids are the right ones if and only if every id is at most
      255.  Otherwise the weight of the largest id is wrong. */
  lemma CastRightIff(shares: seq<RsaShare>, n: nat)
    requires InRange(RsaIds(shares), n) && Distinct(RsaIds(shares))
    ensures RightWeights(shares, n) <==> forall i :: 0 <= i < |shares| ==> shares[i].id <= 255
  {
    var ids, cast := RsaIds(shares), ByteIds(shares);
    forall i | 0 <= i < |shares| ensures 1 <= shares[i].id <= n {
      assert ids[i] == shares[i].id;
    }
    if forall i :: 0 <= i < |shares| ==> shares[i].id <= 255 {
      CastHarmlessIff(shares);
    } else {
      var k := Largest(ids);
      var i :| 0 <= i < |shares| && shares[i].id > 255;
      assert ids[i] <= ids[k] == shares[k].id;
      LargestIsWrong(ids, cast, n, k);
    }
  }

  // ----- and what that means for the combined value

  /** The integers under addition, in which no weight is lost to the order of an element. */
  function Integers(): AbelianGroup<int> {
    AbelianGroup((a: int) => true, 0, (a: int, b: int) => a + b, (a: int) => -a)
  }

  lemma {:induction false} IntegerPow(g: int, n: int)
    ensures Integers().Pow(g, n) == n * g
    decreases if n < 0 then -n else n
  {
    if n > 0 {
      IntegerPow(g, n - 1);
      assert (n - 1) * g + g == n * g;
    } else if n < 0 {
      IntegerPow(g, n + 1);
      assert (n + 1) * g - g == n * g;
    }
  }

  function OnlyAt(n: nat, k: nat): (data: seq<int>)
    ensures |data| == n
  {
    seq(n, i => if i == k then 1 else 0)
  }

  /** Data that is one at k and zero elsewhere combines to the weight of k. */
  lemma {:induction false} ProductOfOne(ids: seq<int>, delta: int, pts: seq<int>, k: nat)
    ensures RsaProduct(Integers(), ids, delta, pts, OnlyAt(|pts|, k))
            == if k < |pts| then RsaWeight(ids, delta, pts[k]) else 0
  {
    if pts != [] {
      var n := |pts| - 1;
      assert OnlyAt(|pts|, k)[..n] == OnlyAt(n, k);
      ProductOfOne(ids, delta, pts[..n], k);
      IntegerPow(OnlyAt(|pts|, k)[n], RsaWeight(ids, delta, pts[n]));
    }
  }

  lemma {:induction false} SameProduct<G(!new)>(group: AbelianGroup<G>, ids: seq<int>, cast: seq<int>, delta: int,
                                               pts: seq<int>, data: seq<G>)
    requires |pts| == |data|
    requires forall i :: 0 <= i < |pts| ==> RsaWeight(cast, delta, pts[i]) == RsaWeight(ids, delta, pts[i])
    ensures RsaProduct(group, cast, delta, pts, data) == RsaProduct(group, ids, delta, pts, data)
  {
    if pts != [] {
      var n := |pts| - 1;
      SameProduct(group, ids, cast, delta, pts[..n], data[..n]);
    }
  }

  /** What `interpolate` would return with and without the cast. */
  ghost predicate SameCombination(shares: seq<RsaShare>, n: nat, data: seq<int>)
    requires |data| == |shares|
  {
    RsaProduct(Integers(), ByteIds(shares), Fac(n), RsaIds(shares), data)
    == RsaProduct(Integers(), RsaIds(shares), Fac(n), RsaIds(shares), data)
  }

  /** The formula that `interpolate` evaluates combines all data as it should if and only if every id of the
      quorum is at most 255. */
  lemma CombinesRightIff(shares: seq<RsaShare>, n: nat)
    requires InRange(RsaIds(shares), n) && Distinct(RsaIds(shares))
    ensures (forall data :: |data| == |shares| ==> SameCombination(shares, n, data))
       <==> forall i :: 0 <= i < |shares| ==> shares[i].id <= 255
  {
    var ids, cast := RsaIds(shares), ByteIds(shares);
    CastRightIff(shares, n);
    if RightWeights(shares, n) {
      forall data | |data| == |shares| ensures SameCombination(shares, n, data) {
        SameProduct(Integers(), ids, cast, Fac(n), ids, data);
      }
    }
    if forall data :: |data| == |shares| ==> SameCombination(shares, n, data) {
      forall i | 0 <= i < |shares|
        ensures RsaWeight(cast, Fac(n), shares[i].id) == RsaWeight(ids, Fac(n), shares[i].id) {
        assert SameCombination(shares, n, OnlyAt(|shares|, i));
        ProductOfOne(cast, Fac(n), ids, i);
        ProductOfOne(ids, Fac(n), ids, i);
      }
    }
  }

  /** A quorum of one share shows the failure: id 256 is cast to 0. */
  lemma CastInput()
    ensures !RightWeights([RsaShare(256, 1)], 256)
  {
    var shares := [RsaShare(256, 1)];
    var ids := RsaIds(shares);
    assert |ids| == 1 && ids[0] == 256;
    CastRightIff(shares, 256);
    assert shares[0].id > 255;
  }
}
