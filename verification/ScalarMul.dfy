/** Scalar multiplication on curves (`src/core/schemes/mcore/src/bls12381/ecp.rs`), over an
    arbitrary abelian group: `group.Pow(P, n)` is n.P.  Scalars are the integers that the
    big-number type represents. */
module ScalarMul {
  import opened Groups
  import opened Digits
  import opened Options

  /** The widest odd scalar that the digit array of `mul` has room for, and sum of odd scalars in `mul2`. */
  const SCALAR_BITS: nat := 404

  // ----- tables and selection

  /** The odd multiples P, 3P, ..., 15P. */
  ghost predicate OddMultiples<G(!new)>(group: AbelianGroup<G>, P: G, W: seq<G>) {
    |W| == 8 && forall i :: 0 <= i < 8 ==> W[i] == group.Pow(P, 2 * i + 1)
  }

  method OddTable<G(!new)>(group: AbelianGroup<G>, P: G) returns (W: seq<G>)
    requires group.Lawful() && group.elem(P)
    ensures OddMultiples(group, P, W)
  {
    var Q := group.op(P, P);
    group.PowOne(P);
    group.PowAdd(P, 1, 1);
    W := [P];
    for i := 1 to 8
      invariant |W| == i && forall j :: 0 <= j < i ==> W[j] == group.Pow(P, 2 * j + 1)
    {
      group.PowAdd(P, 2 * (i - 1) + 1, 2);
      W := W + [group.op(W[i - 1], Q)];
    }
  }

  /** `selector`: entry (|b| - 1) / 2 of the table, negated for a negative digit. */
  function Select<G(!new)>(group: AbelianGroup<G>, W: seq<G>, b: int): G
    requires |W| == 8 && Odd(b) && -16 < b < 16
  {
    var magnitude := if b < 0 then -b else b;
    var entry := W[(magnitude - 1) / 2];
    if b < 0 then group.inv(entry) else entry
  }

  lemma SelectPositive<G(!new)>(group: AbelianGroup<G>, P: G, W: seq<G>, b: int)
    requires OddMultiples(group, P, W) && Odd(b) && 0 < b < 16
    ensures W[(b - 1) / 2] == group.Pow(P, b)
  {
    var i := (b - 1) / 2;
    assert 2 * i + 1 == b;
  }

  lemma SelectMultiple<G(!new)>(group: AbelianGroup<G>, P: G, W: seq<G>, b: int)
    requires group.Lawful() && group.elem(P) && OddMultiples(group, P, W) && Odd(b) && -16 < b < 16
    ensures Select(group, W, b) == group.Pow(P, b)
  {
    if b < 0 {
      SelectPositive(group, P, W, -b);
      group.PowNeg(P, -b);
    } else {
      SelectPositive(group, P, W, b);
    }
  }

  // ----- fixed windows: mul

  function MadeOdd(e: nat): nat {
    e + 1 + e % 2
  }

  /** `e` made odd by adding one or two, with the matching correction. */
  method MakeOdd<G(!new)>(group: AbelianGroup<G>, P: G, e: nat) returns (t: nat, C: G)
    requires group.Lawful() && group.elem(P)
    ensures Odd(t) && t == MadeOdd(e) && C == group.Pow(P, t - e)
  {
    group.PowOne(P);
    group.PowAdd(P, 1, 1);
    var s := e % 2;
    t := e + 1;
    var ns := t % 2;
    var mt := t + 1;
    if s == 1 {
      t := mt;
    }
    C := group.op(P, P);
    if ns == 1 {
      C := P;
    }
  }

  /** 1 + (7 * 58 + 3) / 4. */
  const MUL_DIGITS: nat := 103

  lemma BitLengthIff(t: nat, n: nat)
    ensures BitLength(t) <= n <==> t < Pow2(n)
  {
    if t < Pow2(n) {
      BitLengthLeast(t, n);
    } else if BitLength(t) <= n {
      BitLengthBound(t);
      Pow2Monotone(BitLength(t), n);
    }
  }

  /** The digits of e made odd fit their array exactly up to e = 2^bits - 2. */
  lemma MulDigitsFit(e: nat, nb: nat, bits: nat, size: nat)
    requires nb == 1 + (BitLength(MadeOdd(e)) + 3) / 4 && bits == 4 * (size - 2) && bits > 0
    ensures nb < size <==> e + 2 <= Pow2(bits)
  {
    BitLengthIff(MadeOdd(e), bits);
    assert Pow2(bits) == 2 * Pow2(bits - 1);
  }

  lemma InitialRange(t: nat, nb: nat)
    requires nb == 1 + (BitLength(t) + 3) / 4
    ensures t < IntPow(16, nb - 1)
  {
    BitLengthBound(t);
    Pow2Monotone(BitLength(t), 4 * (nb - 1));
    IntPowIsPow2(4, nb - 1);
    assert Pow2(4) == 16;
  }

  /** Recoding to signed 4-bit windows: nb digits and a final one that is always 1, all odd and
      in the range of the table. */
  method RecodeWindows(t0: nat, nb: nat, w: array<int>)
    requires Odd(t0) && nb == 1 + (BitLength(t0) + 3) / 4 && nb < w.Length
    modifies w
    ensures Recoded(16, t0, nb, w[..nb + 1])
  {
    InitialRange(t0, nb);
    RecodeMeaning(16, t0, nb);
    FillWindows(t0, nb, w);
  }

  method FillWindows(t0: nat, nb: nat, w: array<int>)
    requires nb < w.Length && Recode(16, t0, nb)[nb] == 1
    modifies w
    ensures w[..nb + 1] == Recode(16, t0, nb)
  {
    ghost var digits := Recode(16, t0, nb);
    var t: int := t0;
    for i := 0 to nb
      invariant Recode(16, t, nb - i) == digits[i..]
      invariant w[..i] == digits[..i]
    {
      RecodeAdvance(16, t, nb - i, digits, i);
      w[i] := t % 32 - 16;
      t := (t - w[i]) / 16;
      assert w[..i + 1] == w[..i] + [w[i]] && digits[..i + 1] == digits[..i] + [digits[i]];
    }
    assert digits[nb..] == [t];
    w[nb] := t % 32;
    assert w[..nb + 1] == w[..nb] + [w[nb]] && digits == digits[..nb] + [digits[nb]];
  }

  function Times16<G(!new)>(group: AbelianGroup<G>, P: G): G {
    var p2 := group.op(P, P);
    var p4 := group.op(p2, p2);
    var p8 := group.op(p4, p4);
    group.op(p8, p8)
  }

  /** Four doublings and the addition of one digit. */
  lemma WindowStep<G(!new)>(group: AbelianGroup<G>, P: G, v: int, d: int)
    requires group.Lawful() && group.elem(P)
    ensures group.op(Times16(group, group.Pow(P, v)), group.Pow(P, d)) == group.Pow(P, d + 16 * v)
  {
    group.PowAdd(P, v, v);
    group.PowAdd(P, 2 * v, 2 * v);
    group.PowAdd(P, 4 * v, 4 * v);
    group.PowAdd(P, 8 * v, 8 * v);
    group.PowAdd(P, 16 * v, d);
  }

  /** The main loop: digits from the top, four doublings and one table entry each. */
  method Accumulate<G(!new)>(group: AbelianGroup<G>, P: G, W: seq<G>, w: array<int>, nb: nat) returns (R: G)
    requires group.Lawful() && group.elem(P) && OddMultiples(group, P, W)
    requires nb < w.Length && w[nb] == 1 && WindowDigits(16, w[..nb + 1])
    ensures R == group.Pow(P, Value(16, w[..nb + 1]))
  {
    assert forall j :: 0 <= j <= nb ==> w[j] == w[..nb + 1][j];
    R := W[(w[nb] - 1) / 2];
    assert w[nb..nb + 1] == [1] && [1][1..] == [];
    assert Value(16, [1]) == 1;
    var i := nb;
    while i > 0
      invariant 0 <= i <= nb
      invariant R == group.Pow(P, Value(16, w[i..nb + 1]))
    {
      i := i - 1;
      var Q := Select(group, W, w[i]);
      SelectMultiple(group, P, W, w[i]);
      assert w[i..nb + 1][0] == w[i] && w[i..nb + 1][1..] == w[i + 1..nb + 1];
      WindowStep(group, P, Value(16, w[i + 1..nb + 1]), w[i]);
      R := group.op(Times16(group, R), Q);
    }
    assert w[0..nb + 1] == w[..nb + 1];
  }

  /** `mul`: e.P by signed 4-bit windows over the table of odd multiples, with the correction
      for making the scalar odd subtracted at the end.  It stops at an index past its digit array exactly
      for the scalars above 2^404 - 2, unless the point is the unit. */
  method Mul<G(!new)(==)>(group: AbelianGroup<G>, P: G, e: nat) returns (r: Call<G>)
    requires group.Lawful() && group.elem(P)
    ensures r.Panics? <==> P != group.unit && e + 2 > Pow2(SCALAR_BITS)
    ensures r.Returns? ==> r.value == group.Pow(P, e)
  {
    SmallScalar(e, SCALAR_BITS);
    if e == 0 || P == group.unit {
      group.PowUnit(e);
      return Returns(group.unit);
    }
    var W := OddTable(group, P);
    var t, C := MakeOdd(group, P, e);
    var nb := 1 + (BitLength(t) + 3) / 4;
    MulDigitsFit(e, nb, SCALAR_BITS, MUL_DIGITS);
    if nb >= MUL_DIGITS {
      return Panics;
    }
    var w := new int[MUL_DIGITS];
    RecodeWindows(t, nb, w);
    assert w[nb] == w[..nb + 1][nb];
    var R := Accumulate(group, P, W, w, nb);
    CorrectionCancels(group, P, e, t, C);
    r := Returns(group.op(R, group.inv(C)));
  }

  lemma SmallScalar(e: nat, bits: nat)
    requires bits > 0
    ensures e == 0 ==> e + 2 <= Pow2(bits)
  {
  }

  lemma CorrectionCancels<G(!new)>(group: AbelianGroup<G>, P: G, e: int, t: int, C: G)
    requires group.Lawful() && group.elem(P) && C == group.Pow(P, t - e)
    ensures group.op(group.Pow(P, t), group.inv(C)) == group.Pow(P, e)
  {
    group.PowAdd(P, e, t - e);
    group.PowElem(P, e);
    group.PowElem(P, t - e);
    group.DivOp(group.Pow(P, e), C);
  }

  // ----- joint windows: mul2

  /** The linear combination a.P + b.Q. */
  function Combination<G(!new)>(group: AbelianGroup<G>, P: G, Q: G, a: int, b: int): G {
    group.op(group.Pow(P, a), group.Pow(Q, b))
  }

  lemma CombinationAdd<G(!new)>(group: AbelianGroup<G>, P: G, Q: G, a: int, b: int, c: int, d: int)
    requires group.Lawful() && group.elem(P) && group.elem(Q)
    ensures group.op(Combination(group, P, Q, a, b), Combination(group, P, Q, c, d))
            == Combination(group, P, Q, a + c, b + d)
    ensures group.elem(Combination(group, P, Q, a, b))
  {
    group.PowElem(P, a);
    group.PowElem(Q, b);
    group.PowElem(P, c);
    group.PowElem(Q, d);
    assert group.Closed(group.Pow(P, a), group.Pow(Q, b));
    group.Shuffle(group.Pow(P, a), group.Pow(Q, b), group.Pow(P, c), group.Pow(Q, d));
    group.PowAdd(P, a, c);
    group.PowAdd(Q, b, d);
  }

  lemma CombinationSub<G(!new)>(group: AbelianGroup<G>, P: G, Q: G, a: int, b: int, c: int, d: int)
    requires group.Lawful() && group.elem(P) && group.elem(Q)
    ensures group.op(Combination(group, P, Q, a, b), group.inv(Combination(group, P, Q, c, d)))
         == Combination(group, P, Q, a - c, b - d)
  {
    CombinationAdd(group, P, Q, a - c, b - d, c, d);
    CombinationAdd(group, P, Q, c, d, 0, 0);
    group.DivOp(Combination(group, P, Q, a - c, b - d), Combination(group, P, Q, c, d));
  }

  lemma CombinationBase<G(!new)>(group: AbelianGroup<G>, P: G, Q: G, k: int)
    requires group.Lawful() && group.elem(P) && group.elem(Q)
    ensures Combination(group, P, Q, k, 0) == group.Pow(P, k) && Combination(group, P, Q, 0, k) == group.Pow(Q, k)
    ensures Combination(group, P, Q, 1, 0) == P && Combination(group, P, Q, 0, 1) == Q
  {
    group.PowElem(P, k);
    group.PowElem(Q, k);
    group.PowOne(P);
    group.PowOne(Q);
    assert group.Unit(group.Pow(P, k)) && group.Unit(P);
    assert group.Comm(group.unit, group.Pow(Q, k)) && group.Unit(group.Pow(Q, k));
    assert group.Comm(group.unit, Q) && group.Unit(Q);
  }

  /** Entry (4a + b - 1) / 2 of the joint table is a.P + b.Q, for a in 1, 3 and b in -3, -1, 1, 3. */
  ghost predicate JointTable<G(!new)>(group: AbelianGroup<G>, P: G, Q: G, W: seq<G>) {
    && |W| == 8
    && W[0] == Combination(group, P, Q, 1, -3) && W[1] == Combination(group, P, Q, 1, -1)
    && W[2] == Combination(group, P, Q, 1, 1) && W[3] == Combination(group, P, Q, 1, 3)
    && W[4] == Combination(group, P, Q, 3, -3) && W[5] == Combination(group, P, Q, 3, -1)
    && W[6] == Combination(group, P, Q, 3, 1) && W[7] == Combination(group, P, Q, 3, 3)
  }

  method MakeJointTable<G(!new)>(group: AbelianGroup<G>, P: G, Q: G) returns (W: seq<G>)
    requires group.Lawful() && group.elem(P) && group.elem(Q)
    ensures JointTable(group, P, Q, W)
  {
    CombinationBase(group, P, Q, 0);
    CombinationSub(group, P, Q, 1, 0, 0, 1);
    CombinationAdd(group, P, Q, 1, 0, 0, 1);
    CombinationAdd(group, P, Q, 0, 1, 0, 1);
    CombinationAdd(group, P, Q, 1, 0, 1, 0);
    var W1 := group.op(P, group.inv(Q));
    var W2 := group.op(P, Q);
    var S := group.op(Q, Q);
    CombinationSub(group, P, Q, 1, -1, 0, 2);
    var W0 := group.op(W1, group.inv(S));
    CombinationAdd(group, P, Q, 1, 1, 0, 2);
    var W3 := group.op(W2, S);
    var T := group.op(P, P);
    CombinationAdd(group, P, Q, 1, -1, 2, 0);
    var W5 := group.op(W1, T);
    CombinationAdd(group, P, Q, 1, 1, 2, 0);
    var W6 := group.op(W2, T);
    CombinationSub(group, P, Q, 3, -1, 0, 2);
    var W4 := group.op(W5, group.inv(S));
    CombinationAdd(group, P, Q, 3, 1, 0, 2);
    var W7 := group.op(W6, S);
    W := [W0, W1, W2, W3, W4, W5, W6, W7];
  }

  predicate SmallOdd(a: int) {
    a == -3 || a == -1 || a == 1 || a == 3
  }

  lemma JointSelect<G(!new)>(group: AbelianGroup<G>, P: G, Q: G, W: seq<G>, a: int, b: int)
    requires group.Lawful() && group.elem(P) && group.elem(Q) && JointTable(group, P, Q, W)
    requires SmallOdd(a) && SmallOdd(b)
    ensures Odd(4 * a + b) && -16 < 4 * a + b < 16
    ensures Select(group, W, 4 * a + b) == Combination(group, P, Q, a, b)
  {
    if a < 0 {
      CombinationSub(group, P, Q, 0, 0, -a, -b);
      CombinationBase(group, P, Q, 0);
      CombinationAdd(group, P, Q, -a, -b, 0, 0);
      var c := Combination(group, P, Q, -a, -b);
      assert group.Inverse(c) && group.Comm(group.unit, group.inv(c)) && group.Unit(group.inv(c));
    }
  }

  /** 1 + (7 * 58 + 1) / 2. */
  const MUL2_DIGITS: nat := 204

  lemma Mul2DigitsFit(sum: nat, bits: nat, nb: nat, size: nat)
    requires nb == 1 + (BitLength(sum) + 1) / 2 && bits == 2 * (size - 2)
    ensures nb < size <==> sum < Pow2(bits)
  {
    BitLengthIff(sum, bits);
  }

  lemma InitialRange2(t: nat, sum: nat, nb: nat)
    requires t <= sum && nb == 1 + (BitLength(sum) + 1) / 2
    ensures t < IntPow(4, nb - 1)
  {
    BitLengthBound(sum);
    Pow2Monotone(BitLength(sum), 2 * (nb - 1));
    IntPowIsPow2(2, nb - 1);
    assert Pow2(2) == 4;
  }

  /** The joint digits 4a + b of two digit sequences. */
  ghost predicate JointDigits(w: seq<int>, ds: seq<int>, bs: seq<int>) {
    |w| == |ds| == |bs| && forall j :: 0 <= j < |w| ==> w[j] == 4 * ds[j] + bs[j]
  }

  lemma JointExtend(w: seq<int>, ds: seq<int>, bs: seq<int>, i: nat)
    requires i < |ds| == |bs| && JointDigits(w, ds[..i], bs[..i])
    ensures JointDigits(w + [4 * ds[i] + bs[i]], ds[..i + 1], bs[..i + 1])
  {
  }

  /** Recoding of both scalars to signed 2-bit windows. */
  method FillJoint(te0: nat, tf0: nat, nb: nat, w: array<int>)
    requires nb < w.Length && Recode(4, te0, nb)[nb] == Recode(4, tf0, nb)[nb] == 1
    modifies w
    ensures JointDigits(w[..nb + 1], Recode(4, te0, nb), Recode(4, tf0, nb))
  {
    ghost var ds, bs := Recode(4, te0, nb), Recode(4, tf0, nb);
    var te: int, tf: int := te0, tf0;
    for i := 0 to nb
      invariant Recode(4, te, nb - i) == ds[i..]
      invariant Recode(4, tf, nb - i) == bs[i..]
      invariant JointDigits(w[..i], ds[..i], bs[..i])
    {
      RecodeAdvance(4, te, nb - i, ds, i);
      RecodeAdvance(4, tf, nb - i, bs, i);
      var a := te % 8 - 4;
      te := (te - a) / 4;
      var b := tf % 8 - 4;
      tf := (tf - b) / 4;
      JointExtend(w[..i], ds, bs, i);
      w[i] := 4 * a + b;
      assert w[..i + 1] == w[..i] + [w[i]];
    }
    assert ds[nb..] == [te] && bs[nb..] == [tf];
    JointExtend(w[..nb], ds, bs, nb);
    w[nb] := 4 * (te % 8) + tf % 8;
    assert w[..nb + 1] == w[..nb] + [w[nb]] && ds == ds[..nb + 1] && bs == bs[..nb + 1];
  }

  /** Two doublings and the addition of one joint digit. */
  lemma JointStep<G(!new)>(group: AbelianGroup<G>, P: G, Q: G, va: int, vb: int, a: int, b: int, S: G)
    requires group.Lawful() && group.elem(P) && group.elem(Q) && S == Combination(group, P, Q, va, vb)
    ensures group.op(group.op(group.op(S, S), group.op(S, S)), Combination(group, P, Q, a, b))
         == Combination(group, P, Q, a + 4 * va, b + 4 * vb)
  {
    CombinationAdd(group, P, Q, va, vb, va, vb);
    CombinationAdd(group, P, Q, 2 * va, 2 * vb, 2 * va, 2 * vb);
    CombinationAdd(group, P, Q, 4 * va, 4 * vb, a, b);
  }

  lemma WindowSmall(d: int)
    requires Odd(d) && -4 < d < 4
    ensures SmallOdd(d)
  {
  }

  lemma SuffixValue(base: int, d: seq<int>, i: nat)
    requires i < |d|
    ensures Value(base, d[i..]) == d[i] + base * Value(base, d[i + 1..])
  {
    assert d[i..] == [d[i]] + d[i + 1..];
    ValueCons(base, d[i], d[i + 1..]);
  }

  lemma JointDigitAt(w: seq<int>, ds: seq<int>, bs: seq<int>, te: int, tf: int, i: nat)
    requires |w| >= 1 && JointDigits(w, ds, bs) && Recoded(4, te, |w| - 1, ds) && Recoded(4, tf, |w| - 1, bs) && i < |w|
    ensures SmallOdd(ds[i]) && SmallOdd(bs[i]) && w[i] == 4 * ds[i] + bs[i]
    ensures Value(4, ds[i..]) == ds[i] + 4 * Value(4, ds[i + 1..])
            && Value(4, bs[i..]) == bs[i] + 4 * Value(4, bs[i + 1..])
  {
    WindowSmall(ds[i]);
    WindowSmall(bs[i]);
    SuffixValue(4, ds, i);
    SuffixValue(4, bs, i);
  }

  /** The top digit is 5, which selects P + Q. */
  method TopEntry<G(!new)>(group: AbelianGroup<G>, P: G, Q: G, W: seq<G>, w: seq<int>, ghost te: int, ghost tf: int,
                           ghost ds: seq<int>, ghost bs: seq<int>) returns (S: G)
    requires JointTable(group, P, Q, W) && |w| >= 1 && JointDigits(w, ds, bs)
    requires Recoded(4, te, |w| - 1, ds) && Recoded(4, tf, |w| - 1, bs)
    ensures S == Combination(group, P, Q, 1, 1)
    ensures Value(4, ds[|w| - 1..]) == 1 && Value(4, bs[|w| - 1..]) == 1
  {
    assert ds[|w| - 1..] == [1] && bs[|w| - 1..] == [1];
    RecodedOne(4);
    S := W[(w[|w| - 1] - 1) / 2];
  }

  method AccumulateJoint<G(!new)>(group: AbelianGroup<G>, P: G, Q: G, W: seq<G>, w: seq<int>, ghost te: int,
                                  ghost tf: int, ghost ds: seq<int>, ghost bs: seq<int>) returns (S: G)
    requires group.Lawful() && group.elem(P) && group.elem(Q) && JointTable(group, P, Q, W)
    requires |w| >= 1 && JointDigits(w, ds, bs)
    requires Recoded(4, te, |w| - 1, ds) && Recoded(4, tf, |w| - 1, bs)
    ensures S == Combination(group, P, Q, te, tf)
  {
    S := TopEntry(group, P, Q, W, w, te, tf, ds, bs);
    ghost var va, vb := 1, 1;
    var i := |w| - 1;
    while i > 0
      invariant 0 <= i < |w|
      invariant va == Value(4, ds[i..]) && vb == Value(4, bs[i..])
      invariant S == Combination(group, P, Q, va, vb)
    {
      i := i - 1;
      JointDigitAt(w, ds, bs, te, tf, i);
      S := JointRound(group, P, Q, W, w[i], S, va, vb, ds[i], bs[i]);
      va, vb := ds[i] + 4 * va, bs[i] + 4 * vb;
    }
    assert ds[0..] == ds && bs[0..] == bs;
  }

  method JointRound<G(!new)>(group: AbelianGroup<G>, P: G, Q: G, W: seq<G>, digit: int, S: G,
                             ghost va: int, ghost vb: int, ghost a: int, ghost b: int) returns (R: G)
    requires group.Lawful() && group.elem(P) && group.elem(Q) && JointTable(group, P, Q, W)
    requires SmallOdd(a) && SmallOdd(b) && digit == 4 * a + b && S == Combination(group, P, Q, va, vb)
    ensures R == Combination(group, P, Q, a + 4 * va, b + 4 * vb)
  {
    JointSelect(group, P, Q, W, a, b);
    JointStep(group, P, Q, va, vb, a, b, S);
    var T := Select(group, W, digit);
    R := group.op(S, S);
    R := group.op(R, R);
    R := group.op(R, T);
  }

  /** Where both recodings end with a one, the joint digits are those of both. */
  method FillPair(te: nat, tf: nat, nb: nat, size: nat, ghost ds: seq<int>, ghost bs: seq<int>) returns (w: seq<int>)
    requires nb < size && ds == Recode(4, te, nb) && bs == Recode(4, tf, nb) && ds[nb] == 1 && bs[nb] == 1
    ensures |w| == nb + 1 && JointDigits(w, ds, bs)
  {
    var digits := new int[size];
    FillJoint(te, tf, nb, digits);
    w := digits[..nb + 1];
  }

  lemma RecodeOdd(t: nat, nb: nat) returns (d: seq<int>)
    requires Odd(t) && nb >= 1 && t < IntPow(4, nb - 1)
    ensures d == Recode(4, t, nb) && Recoded(4, t, nb, d)
  {
    d := Recode(4, t, nb);
    RecodeMeaning(4, t, nb);
  }

  method FillRecoded(te: nat, tf: nat, nb: nat, size: nat) returns (w: seq<int>, ghost ds: seq<int>, ghost bs: seq<int>)
    requires Odd(te) && Odd(tf) && 1 <= nb < size && te < IntPow(4, nb - 1) && tf < IntPow(4, nb - 1)
    ensures |w| == nb + 1 && JointDigits(w, ds, bs) && Recoded(4, te, nb, ds) && Recoded(4, tf, nb, bs)
  {
    ds := RecodeOdd(te, nb);
    bs := RecodeOdd(tf, nb);
    w := FillPair(te, tf, nb, size, ds, bs);
  }

  lemma PairRange(te: nat, tf: nat, nb: nat)
    requires nb == 1 + (BitLength(te + tf) + 1) / 2
    ensures 1 <= nb && te < IntPow(4, nb - 1) && tf < IntPow(4, nb - 1)
  {
    InitialRange2(te, te + tf, nb);
    InitialRange2(tf, te + tf, nb);
  }

  /** The combination of two odd scalars, whose sum decides the number of digits of both. */
  method MulOddPair<G(!new)>(group: AbelianGroup<G>, P: G, te: nat, Q: G, tf: nat, nb: nat, size: nat) returns (S: G)
    requires group.Lawful() && group.elem(P) && group.elem(Q)
    requires Odd(te) && Odd(tf) && nb == 1 + (BitLength(te + tf) + 1) / 2 && nb < size
    ensures S == Combination(group, P, Q, te, tf)
  {
    var W := MakeJointTable(group, P, Q);
    PairRange(te, tf, nb);
    var w;
    ghost var ds, bs;
    w, ds, bs := FillRecoded(te, tf, nb, size);
    S := AccumulateJoint(group, P, Q, W, w, te, tf, ds, bs);
  }

  /** `mul2`: e.P + f.Q by joint signed 2-bit windows.  It stops at an index past its digit array exactly when
      the two scalars, made odd, sum to 2^404 or more. */
  method Mul2<G(!new)>(group: AbelianGroup<G>, P: G, e: nat, Q: G, f: nat) returns (r: Call<G>)
    requires group.Lawful() && group.elem(P) && group.elem(Q)
    ensures r.Panics? <==> MadeOdd(e) + MadeOdd(f) >= Pow2(SCALAR_BITS)
    ensures r.Returns? ==> r.value == group.op(group.Pow(P, e), group.Pow(Q, f))
  {
    var te, CE := MakeOdd(group, P, e);
    var tf, CF := MakeOdd(group, Q, f);
    var nb := 1 + (BitLength(te + tf) + 1) / 2;
    Mul2DigitsFit(te + tf, SCALAR_BITS, nb, MUL2_DIGITS);
    if nb >= MUL2_DIGITS {
      return Panics;
    }
    var S := MulOddPair(group, P, te, Q, tf, nb, MUL2_DIGITS);
    S := Correct(group, P, e, Q, f, te, tf, S, group.op(CE, CF));
    r := Returns(S);
  }

  method Correct<G(!new)>(group: AbelianGroup<G>, P: G, ghost e: int, Q: G, ghost f: int, ghost te: int, ghost tf: int,
                          S: G, C: G) returns (R: G)
    requires group.Lawful() && group.elem(P) && group.elem(Q)
    requires S == Combination(group, P, Q, te, tf) && C == Combination(group, P, Q, te - e, tf - f)
    ensures R == group.op(group.Pow(P, e), group.Pow(Q, f))
  {
    CombinationSub(group, P, Q, te, tf, te - e, tf - f);
    R := group.op(S, group.inv(C));
  }

  // ----- the ladder: pinmul

  lemma LadderStep<G(!new)>(group: AbelianGroup<G>, P: G, m: int)
    requires group.Lawful() && group.elem(P)
    ensures group.op(group.Pow(P, m + 1), group.Pow(P, m)) == group.Pow(P, 2 * m + 1)
    ensures group.op(group.Pow(P, m), group.Pow(P, m)) == group.Pow(P, 2 * m)
    ensures group.op(group.Pow(P, m + 1), group.Pow(P, m + 1)) == group.Pow(P, 2 * m + 2)
  {
    group.PowAdd(P, m + 1, m);
    group.PowAdd(P, m, m);
    group.PowAdd(P, m + 1, m + 1);
  }

  /** One step of the ladder: with m.P and (m+1).P, the bit decides between 2m and 2m + 1. */
  method LadderRound<G(!new)>(group: AbelianGroup<G>, P: G, ghost m: int, R0: G, R1: G, b: int) returns (S0: G, S1: G)
    requires group.Lawful() && group.elem(P) && R0 == group.Pow(P, m) && R1 == group.Pow(P, m + 1) && (b == 0 || b == 1)
    ensures S0 == group.Pow(P, 2 * m + b) && S1 == group.Pow(P, 2 * m + b + 1)
  {
    LadderStep(group, P, m);
    var T := group.op(R1, R0);
    S0, S1 := R0, R1;
    if b == 1 {
      S0, S1 := S1, S0;
    }
    S1 := T;
    S0 := group.op(S0, S0);
    if b == 1 {
      S0, S1 := S1, S0;
    }
  }

  /** `pinmul`: a ladder over the low `bts` bits of e that keeps R1 = R0 + P. */
  method PinMul<G(!new)>(group: AbelianGroup<G>, P: G, e: int, bts: nat) returns (R: G)
    requires group.Lawful() && group.elem(P)
    ensures R == group.Pow(P, e % Pow2(bts))
  {
    var R0, R1 := group.unit, P;
    group.PowOne(P);
    ghost var m := 0;
    var i := bts;
    while i > 0
      invariant 0 <= i <= bts && m == BitsFrom(e, i, bts)
      invariant R0 == group.Pow(P, m) && R1 == group.Pow(P, m + 1)
    {
      i := i - 1;
      R0, R1 := LadderRound(group, P, m, R0, R1, Bit(e, i));
      m := 2 * m + Bit(e, i);
    }
    LowBits(e, bts);
    R := R0;
  }
}
