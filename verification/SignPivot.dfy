/** The four-way multiplication `mul4` (`src/core/schemes/mcore/src/bls12381/ecp2.rs`): the first
    scalar is recoded to signs, the others to digits with those signs, so that each position
    needs one entry of a table of eight. */
module SignPivot {
  import opened Vectors
  import opened Groups
  import opened Digits
  import opened LinearForms
  import ScalarMul

  // ----- the recoding, as digit sequences

  predicate Sign(x: int) {
    x == 1 || x == -1
  }

  /** The signs of t: one per bit above the lowest, and a leading 1. */
  function Signs(t: nat, n: nat): (s: seq<int>)
    ensures |s| == n + 1 && s[n] == 1 && forall i :: 0 <= i <= n ==> Sign(s[i])
    decreases n
  {
    if n == 0 then [1] else [2 * ((t / 2) % 2) - 1] + Signs(t / 2, n - 1)
  }

  /** The signs of an odd number have the number as their value. */
  lemma {:induction false} SignsValue(t: nat, n: nat)
    requires t < Pow2(n + 1)
    ensures Value(2, Signs(t, n)) == 2 * (t / 2) + 1
    decreases n
  {
    if n == 0 {
      assert Pow2(1) == 2 && [1] == [1] + [];
      ValueCons(2, 1, []);
    } else {
      SignsValue(t / 2, n - 1);
      ValueCons(2, 2 * ((t / 2) % 2) - 1, Signs(t / 2, n - 1));
    }
  }

  /** `x >> 1`, an arithmetic shift. */
  function ShiftRight(x: int): int {
    x / 2
  }

  /** What one step leaves of a scalar under sign x. */
  function Next(t: int, x: int): int {
    t / 2 - ShiftRight(x * (t % 2))
  }

  /** The digits of t under the signs s. */
  function Aligned(t: int, s: seq<int>): (d: seq<int>)
    ensures |d| == |s|
    decreases |s|
  {
    if s == [] then [] else [s[0] * (t % 2)] + Aligned(Next(t, s[0]), s[1..])
  }

  predicate AllSigns(s: seq<int>) {
    forall i :: 0 <= i < |s| ==> Sign(s[i])
  }

  lemma NextStep(t: int, x: int, bound: int)
    requires 0 <= t <= 2 * bound && Sign(x)
    ensures 0 <= Next(t, x) <= bound && t == x * (t % 2) + 2 * Next(t, x)
  {
  }

  /** Every scalar up to 2^(|s|-1) is used up, and its digits have it as their value. */
  lemma {:induction false} AlignedValue(t: int, s: seq<int>)
    requires |s| >= 1 && AllSigns(s) && s[|s| - 1] == 1 && 0 <= t <= Pow2(|s| - 1)
    ensures Value(2, Aligned(t, s)) == t
    decreases |s|
  {
    var next := Next(t, s[0]);
    ValueCons(2, s[0] * (t % 2), Aligned(next, s[1..]));
    if |s| == 1 {
      assert t == 0 || t == 1;
      assert Aligned(next, s[1..]) == [];
    } else {
      NextStep(t, s[0], Pow2(|s| - 2));
      AlignedValue(next, s[1..]);
    }
  }

  lemma {:induction false} AlignedDigit(t: int, s: seq<int>, i: nat)
    requires i < |s| && AllSigns(s)
    ensures Aligned(t, s)[i] == 0 || Aligned(t, s)[i] == s[i]
    decreases |s|
  {
    if i > 0 {
      AlignedDigit(Next(t, s[0]), s[1..], i - 1);
    }
  }

  // ----- the table

  /** Entry p1 + 2.p2 + 4.p3 is Q0 + p1.Q1 + p2.Q2 + p3.Q3. */
  ghost predicate PivotTable<G(!new)>(group: AbelianGroup<G>, Q: seq<G>, T: seq<G>) {
    |Q| == 4 && |T| == 8
    && T[0] == Linear(group, Q, [1, 0, 0, 0]) && T[1] == Linear(group, Q, [1, 1, 0, 0])
    && T[2] == Linear(group, Q, [1, 0, 1, 0]) && T[3] == Linear(group, Q, [1, 1, 1, 0])
    && T[4] == Linear(group, Q, [1, 0, 0, 1]) && T[5] == Linear(group, Q, [1, 1, 0, 1])
    && T[6] == Linear(group, Q, [1, 0, 1, 1]) && T[7] == Linear(group, Q, [1, 1, 1, 1])
  }

  lemma AddPoint<G(!new)>(group: AbelianGroup<G>, Q: seq<G>, c: seq<int>, k: nat, R: G, d: seq<int>)
    requires group.Lawful() && Points(group, Q) && |Q| == |c| && k < |Q| && R == Linear(group, Q, c)
    requires d == c[k := c[k] + 1]
    ensures group.op(R, Q[k]) == Linear(group, Q, d)
  {
    LinearOne(group, Q, k);
    LinearAdd(group, Q, c, OneAt(|Q|, k));
    assert Sum(c, OneAt(|Q|, k)) == c[k := c[k] + 1];
  }

  method MakePivotTable<G(!new)>(group: AbelianGroup<G>, Q: seq<G>) returns (T: seq<G>)
    requires group.Lawful() && Points(group, Q) && |Q| == 4
    ensures PivotTable(group, Q, T)
  {
    LinearOne(group, Q, 0);
    assert OneAt(4, 0) == [1, 0, 0, 0];
    var T0 := Q[0];
    AddPoint(group, Q, [1, 0, 0, 0], 1, T0, [1, 1, 0, 0]);
    var T1 := group.op(T0, Q[1]);
    AddPoint(group, Q, [1, 0, 0, 0], 2, T0, [1, 0, 1, 0]);
    var T2 := group.op(T0, Q[2]);
    AddPoint(group, Q, [1, 1, 0, 0], 2, T1, [1, 1, 1, 0]);
    var T3 := group.op(T1, Q[2]);
    AddPoint(group, Q, [1, 0, 0, 0], 3, T0, [1, 0, 0, 1]);
    var T4 := group.op(T0, Q[3]);
    AddPoint(group, Q, [1, 1, 0, 0], 3, T1, [1, 1, 0, 1]);
    var T5 := group.op(T1, Q[3]);
    AddPoint(group, Q, [1, 0, 1, 0], 3, T2, [1, 0, 1, 1]);
    var T6 := group.op(T2, Q[3]);
    AddPoint(group, Q, [1, 1, 1, 0], 3, T3, [1, 1, 1, 1]);
    var T7 := group.op(T3, Q[3]);
    T := [T0, T1, T2, T3, T4, T5, T6, T7];
  }

  /** Three digits that follow one sign make one table index, with that sign. */
  lemma PivotSelect<G(!new)>(group: AbelianGroup<G>, Q: seq<G>, T: seq<G>, x: int, a: int, b: int, c: int)
    requires group.Lawful() && Points(group, Q) && PivotTable(group, Q, T) && Sign(x)
    requires (a == 0 || a == x) && (b == 0 || b == x) && (c == 0 || c == x)
    ensures Odd(2 * (a + 2 * b + 4 * c) + x) && -16 < 2 * (a + 2 * b + 4 * c) + x < 16
    ensures ScalarMul.Select(group, T, 2 * (a + 2 * b + 4 * c) + x) == Linear(group, Q, [x, a, b, c])
  {
    if x == -1 {
      NegateRow(group, Q, -a, -b, -c);
    }
  }

  lemma NegateRow<G(!new)>(group: AbelianGroup<G>, Q: seq<G>, a: int, b: int, c: int)
    requires group.Lawful() && Points(group, Q) && |Q| == 4
    ensures group.inv(Linear(group, Q, [1, a, b, c])) == Linear(group, Q, [-1, -a, -b, -c])
  {
    var row, neg := [1, a, b, c], [-1, -a, -b, -c];
    assert Sum(neg, row) == Zeros(4);
    LinearSub(group, Q, Zeros(4), row, neg);
    LinearZero(group, Q);
    LinearElem(group, Q, row);
    var v := Linear(group, Q, row);
    assert group.Inverse(v) && group.Comm(group.unit, group.inv(v)) && group.Unit(group.inv(v));
  }

  // ----- the loops

  /** `s`: the sign pivot of t0. */
  method FillSigns(t0: nat, nb: nat, s: array<int>)
    requires 1 <= nb <= s.Length
    modifies s
    ensures s[..nb] == Signs(t0, nb - 1)
  {
    ghost var signs := Signs(t0, nb - 1);
    var t := t0;
    s[nb - 1] := 1;
    for i := 0 to nb - 1
      invariant Signs(t, nb - 1 - i) == signs[i..] && s[nb - 1] == 1
      invariant s[..i] == signs[..i]
    {
      assert signs[i..][0] == signs[i] && signs[i..][1..] == signs[i + 1..];
      t := t / 2;
      var parity: int := t % 2;
      s[i] := 2 * parity - 1;
      assert s[..i + 1] == s[..i] + [s[i]] && signs[..i + 1] == signs[..i] + [signs[i]];
    }
    assert s[..nb] == s[..nb - 1] + [s[nb - 1]] && signs == signs[..nb - 1] + [signs[nb - 1]];
  }

  /** The digit of t under sign x. */
  function SignedBit(x: int, t: int): (b: int)
    requires Sign(x)
    ensures b == if t % 2 == 1 then x else 0
  {
    x * (t % 2)
  }

  /** Products with the digits 1, 2 and 4 of a weight. */
  function Times(b: int, k: int): (r: int)
    ensures (k == 1 ==> r == b) && (k == 2 ==> r == 2 * b) && (k == 4 ==> r == 4 * b)
  {
    b * k
  }

  /** One position: the digits of the three other scalars, packed, and the scalars shifted. */
  method PivotDigit(t: array<int>, x: int) returns (w: int)
    requires t.Length == 4 && Sign(x)
    modifies t
    ensures forall j :: 1 <= j < 4 ==> t[j] == Next(old(t[j]), x)
    ensures w == x * (old(t[1]) % 2) + 2 * (x * (old(t[2]) % 2)) + 4 * (x * (old(t[3]) % 2))
  {
    w := 0;
    var k := 1;
    ghost var a, b, c := SignedBit(x, t[1]), SignedBit(x, t[2]), SignedBit(x, t[3]);
    for j := 1 to 4
      invariant forall i :: 1 <= i < j ==> t[i] == Next(old(t[i]), x)
      invariant forall i :: j <= i < 4 ==> t[i] == old(t[i])
      invariant j == 1 ==> k == 1 && w == 0
      invariant j == 2 ==> k == 2 && w == a
      invariant j == 3 ==> k == 4 && w == a + 2 * b
      invariant j == 4 ==> w == a + 2 * b + 4 * c
    {
      var bt := PivotScalar(t, j, x);
      w := w + Times(bt, k);
      k := k * 2;
    }
  }

  /** The digit of one scalar, and the scalar shifted. */
  method PivotScalar(t: array<int>, j: nat, x: int) returns (bt: int)
    requires j < t.Length && Sign(x)
    modifies t
    ensures bt == SignedBit(x, old(t[j])) && t[j] == Next(old(t[j]), x)
    ensures forall i :: 0 <= i < t.Length && i != j ==> t[i] == old(t[i])
  {
    bt := SignedBit(x, t[j]);
    t[j] := t[j] / 2;
    t[j] := t[j] - ShiftRight(bt);
  }

  /** The packed digits of position i. */
  function Packed(d: seq<int>, e: seq<int>, f: seq<int>, i: nat): int
    requires i < |d| && i < |e| && i < |f|
  {
    d[i] + 2 * e[i] + 4 * f[i]
  }

  lemma AlignedStep(t: int, s: seq<int>, i: nat, d: seq<int>)
    requires i < |s| == |d| && Aligned(t, s[i..]) == d[i..]
    ensures d[i] == s[i] * (t % 2) && Aligned(Next(t, s[i]), s[i + 1..]) == d[i + 1..]
  {
    assert s[i..][0] == s[i] && s[i..][1..] == s[i + 1..];
    assert d[i..][0] == d[i] && d[i..][1..] == d[i + 1..];
  }

  /** `w`: the packed digits of the three other scalars under the signs. */
  method FillDigits(t: array<int>, signs: array<int>, nb: nat, w: array<int>, ghost s: seq<int>,
                    ghost d: seq<int>, ghost e: seq<int>, ghost f: seq<int>)
    requires t.Length == 4 && nb <= w.Length && nb <= signs.Length && signs[..nb] == s && AllSigns(s)
    requires t != w && t != signs && w != signs
    requires d == Aligned(t[1], s) && e == Aligned(t[2], s) && f == Aligned(t[3], s)
    modifies t, w
    ensures forall i :: 0 <= i < nb ==> w[i] == Packed(d, e, f, i)
  {
    assert s[0..] == s && d[0..] == d && e[0..] == e && f[0..] == f;
    for i := 0 to nb
      invariant signs[..nb] == s
      invariant Aligned(t[1], s[i..]) == d[i..] && Aligned(t[2], s[i..]) == e[i..] && Aligned(t[3], s[i..]) == f[i..]
      invariant forall j :: 0 <= j < i ==> w[j] == Packed(d, e, f, j)
    {
      AlignedStep(t[1], s, i, d);
      AlignedStep(t[2], s, i, e);
      AlignedStep(t[3], s, i, f);
      assert signs[i] == s[i];
      var digit := PivotDigit(t, signs[i]);
      w[i] := digit;
    }
  }

  /** The values of the four digit sequences from position i. */
  ghost function Heads(s: seq<int>, d: seq<int>, e: seq<int>, f: seq<int>, i: nat): (c: seq<int>)
    requires |s| == |d| == |e| == |f| && i <= |s|
    ensures |c| == 4
  {
    [Value(2, s[i..]), Value(2, d[i..]), Value(2, e[i..]), Value(2, f[i..])]
  }

  lemma HeadsStep(s: seq<int>, d: seq<int>, e: seq<int>, f: seq<int>, i: nat)
    requires |s| == |d| == |e| == |f| && i < |s|
    ensures Heads(s, d, e, f, i)
            == Sum(Sum(Heads(s, d, e, f, i + 1), Heads(s, d, e, f, i + 1)), [s[i], d[i], e[i], f[i]])
  {
    ScalarMul.SuffixValue(2, s, i);
    ScalarMul.SuffixValue(2, d, i);
    ScalarMul.SuffixValue(2, e, i);
    ScalarMul.SuffixValue(2, f, i);
  }

  lemma HeadsLast(s: seq<int>, d: seq<int>, e: seq<int>, f: seq<int>)
    requires |s| == |d| == |e| == |f| >= 1
    ensures Heads(s, d, e, f, |s| - 1) == [s[|s| - 1], d[|s| - 1], e[|s| - 1], f[|s| - 1]]
  {
    var i := |s| - 1;
    ScalarMul.SuffixValue(2, s, i);
    ScalarMul.SuffixValue(2, d, i);
    ScalarMul.SuffixValue(2, e, i);
    ScalarMul.SuffixValue(2, f, i);
  }

  ghost predicate FollowsSigns(s: seq<int>, d: seq<int>) {
    |d| == |s| && forall i :: 0 <= i < |s| ==> d[i] == 0 || d[i] == s[i]
  }

  /** One position: the accumulator is doubled and the table entry of the digit added. */
  method PivotRound<G(!new)>(group: AbelianGroup<G>, Q: seq<G>, T: seq<G>, digit: int, P: G,
                             ghost high: seq<int>, ghost x: int, ghost a: int, ghost b: int, ghost c: int)
    returns (R: G)
    requires group.Lawful() && Points(group, Q) && PivotTable(group, Q, T) && Sign(x)
    requires (a == 0 || a == x) && (b == 0 || b == x) && (c == 0 || c == x) && digit == 2 * (a + 2 * b + 4 * c) + x
    requires |high| == 4 && P == Linear(group, Q, high)
    ensures R == Linear(group, Q, Sum(Sum(high, high), [x, a, b, c]))
  {
    PivotSelect(group, Q, T, x, a, b, c);
    LinearAdd(group, Q, high, high);
    LinearAdd(group, Q, Sum(high, high), [x, a, b, c]);
    R := group.op(P, P);
    var W := ScalarMul.Select(group, T, digit);
    R := group.op(R, W);
  }

  /** The main loop: one doubling and one table entry per position. */
  method AccumulatePivot<G(!new)>(group: AbelianGroup<G>, Q: seq<G>, T: seq<G>, signs: array<int>, w: array<int>,
                                  nb: nat, ghost s: seq<int>, ghost d: seq<int>, ghost e: seq<int>, ghost f: seq<int>)
    returns (P: G)
    requires group.Lawful() && Points(group, Q) && PivotTable(group, Q, T)
    requires 1 <= nb <= w.Length && nb <= signs.Length && signs[..nb] == s && AllSigns(s) && s[nb - 1] == 1
    requires FollowsSigns(s, d) && FollowsSigns(s, e) && FollowsSigns(s, f)
    requires forall i :: 0 <= i < nb ==> w[i] == Packed(d, e, f, i)
    ensures P == Linear(group, Q, Heads(s, d, e, f, 0))
  {
    PivotSelect(group, Q, T, s[nb - 1], d[nb - 1], e[nb - 1], f[nb - 1]);
    HeadsLast(s, d, e, f);
    P := ScalarMul.Select(group, T, 2 * w[nb - 1] + 1);
    var i := nb - 1;
    while i > 0
      invariant 0 <= i <= nb - 1 && P == Linear(group, Q, Heads(s, d, e, f, i))
    {
      i := i - 1;
      HeadsStep(s, d, e, f, i);
      assert signs[i] == s[i];
      P := PivotRound(group, Q, T, 2 * w[i] + signs[i], P, Heads(s, d, e, f, i + 1), s[i], d[i], e[i], f[i]);
    }
  }

  /** NLEN * BASEBITS. */
  const WIDTH: nat := 406

  function OrAll(t: seq<nat>): nat {
    if t == [] then 0 else BitOr(OrAll(t[..|t| - 1]), t[|t| - 1])
  }

  lemma {:induction false} OrCovers(t: seq<nat>, j: nat)
    requires j < |t|
    ensures t[j] <= OrAll(t)
  {
    BitOrLength(OrAll(t[..|t| - 1]), t[|t| - 1]);
    if j < |t| - 1 {
      OrCovers(t[..|t| - 1], j);
    }
  }

  lemma {:induction false} OrFits(t: seq<nat>, width: nat)
    requires forall j :: 0 <= j < |t| ==> t[j] < Pow2(width)
    ensures BitLength(OrAll(t)) <= width
  {
    if t != [] {
      BitOrLength(OrAll(t[..|t| - 1]), t[|t| - 1]);
      OrFits(t[..|t| - 1], width);
      BitLengthLeast(t[|t| - 1], width);
    }
  }

  /** The number of positions covers every scalar and fits the digit arrays. */
  method Positions(t: seq<nat>, width: nat) returns (nb: nat)
    requires forall j :: 0 <= j < |t| ==> t[j] < Pow2(width)
    ensures 1 <= nb <= width + 1 && forall j :: 0 <= j < |t| ==> t[j] < Pow2(nb - 1)
  {
    var mt := 0;
    for i := 0 to |t|
      invariant mt == OrAll(t[..i])
    {
      assert t[..i + 1][..i] == t[..i];
      mt := BitOr(mt, t[i]);
    }
    assert t[..|t|] == t;
    nb := 1 + BitLength(mt);
    OrFits(t, width);
    forall j | 0 <= j < |t| ensures t[j] < Pow2(nb - 1) {
      OrCovers(t, j);
      BitLengthBound(mt);
    }
  }

  /** An even number below a power of two leaves room for one more. */
  lemma RoomForOne(u: nat, n: nat)
    requires n >= 1 && u < Pow2(n) && u % 2 == 0
    ensures u + 1 < Pow2(n)
  {
    assert Pow2(n) == 2 * Pow2(n - 1);
  }

  lemma DigitsOf(t: nat, s: seq<int>)
    requires |s| >= 1 && AllSigns(s) && s[|s| - 1] == 1 && t < Pow2(|s| - 1)
    ensures Value(2, Aligned(t, s)) == t && FollowsSigns(s, Aligned(t, s))
  {
    AlignedValue(t, s);
    forall i | 0 <= i < |s| ensures Aligned(t, s)[i] == 0 || Aligned(t, s)[i] == s[i] {
      AlignedDigit(t, s, i);
    }
  }

  /** All four recodings of scalars that nb - 1 bits cover. */
  lemma PivotRecoding(t0: nat, t1: nat, t2: nat, t3: nat, nb: nat, s: seq<int>)
    requires nb >= 1 && Odd(t0) && t0 < Pow2(nb - 1) && t1 < Pow2(nb - 1) && t2 < Pow2(nb - 1) && t3 < Pow2(nb - 1)
    requires s == Signs(t0, nb - 1)
    ensures FollowsSigns(s, Aligned(t1, s)) && FollowsSigns(s, Aligned(t2, s)) && FollowsSigns(s, Aligned(t3, s))
    ensures Heads(s, Aligned(t1, s), Aligned(t2, s), Aligned(t3, s), 0) == [t0, t1, t2, t3]
  {
    SignsValue(t0, nb - 1);
    DigitsOf(t1, s);
    DigitsOf(t2, s);
    DigitsOf(t3, s);
    assert s[0..] == s;
    assert Aligned(t1, s)[0..] == Aligned(t1, s);
    assert Aligned(t2, s)[0..] == Aligned(t2, s);
    assert Aligned(t3, s)[0..] == Aligned(t3, s);
  }

  /** Signs and packed digits of all four scalars, in arrays of a given size. */
  method RecodePivot(u: seq<nat>, nb: nat, size: nat) returns (signs: array<int>, w: array<int>,
                     ghost s: seq<int>, ghost d: seq<int>, ghost e: seq<int>, ghost f: seq<int>)
    requires |u| == 4 && 1 <= nb <= size && Odd(u[0]) && forall j :: 0 <= j < 4 ==> u[j] < Pow2(nb - 1)
    ensures fresh(signs) && fresh(w) && signs.Length == w.Length == size
    ensures signs[..nb] == s && AllSigns(s) && s[nb - 1] == 1
    ensures FollowsSigns(s, d) && FollowsSigns(s, e) && FollowsSigns(s, f) && Heads(s, d, e, f, 0) == u
    ensures forall i :: 0 <= i < nb ==> w[i] == Packed(d, e, f, i)
  {
    signs := new int[size];
    w := new int[size];
    var t := new int[4](i requires 0 <= i < 4 => u[i]);
    FillSigns(u[0], nb, signs);
    s := Signs(u[0], nb - 1);
    d, e, f := Aligned(u[1], s), Aligned(u[2], s), Aligned(u[3], s);
    FillDigits(t, signs, nb, w, s, d, e, f);
    RecodingOf(u, nb, s, d, e, f);
  }

  lemma RecodingOf(u: seq<nat>, nb: nat, s: seq<int>, d: seq<int>, e: seq<int>, f: seq<int>)
    requires |u| == 4 && nb >= 1 && Odd(u[0]) && (forall j :: 0 <= j < 4 ==> u[j] < Pow2(nb - 1))
             && s == Signs(u[0], nb - 1)
    requires d == Aligned(u[1], s) && e == Aligned(u[2], s) && f == Aligned(u[3], s)
    ensures FollowsSigns(s, d) && FollowsSigns(s, e) && FollowsSigns(s, f) && Heads(s, d, e, f, 0) == u
  {
    PivotRecoding(u[0], u[1], u[2], u[3], nb, s);
    assert u == [u[0], u[1], u[2], u[3]];
  }

  /** The combination for an odd first scalar, with digit arrays of one more than the width. */
  method MulOdd4<G(!new)>(group: AbelianGroup<G>, Q: seq<G>, u: seq<nat>, width: nat) returns (P: G)
    requires group.Lawful() && Points(group, Q) && |Q| == 4 && |u| == 4
    requires Odd(u[0]) && forall j :: 0 <= j < 4 ==> u[j] < Pow2(width)
    ensures P == Linear(group, Q, u)
  {
    var T := MakePivotTable(group, Q);
    var nb := Positions(u, width);
    var signs, w;
    ghost var s, d, e, f;
    signs, w, s, d, e, f := RecodePivot(u, nb, width + 1);
    P := AccumulatePivot(group, Q, T, signs, w, nb, s, d, e, f);
  }

  /** `mul4`: u0.Q0 + u1.Q1 + u2.Q2 + u3.Q3, for all scalars of the big-number width.  An even
      first scalar is raised by one and Q0 subtracted at the end. */
  method Mul4<G(!new)>(group: AbelianGroup<G>, Q: seq<G>, u: seq<nat>) returns (P: G)
    requires group.Lawful() && Points(group, Q) && |Q| == 4 && |u| == 4
    requires forall j :: 0 <= j < 4 ==> u[j] < Pow2(WIDTH)
    ensures P == Linear(group, Q, u)
  {
    var pb := 1 - u[0] % 2;
    if pb == 1 {
      RoomForOne(u[0], WIDTH);
    }
    var t := [u[0] + pb, u[1], u[2], u[3]];
    P := MulOdd4(group, Q, t, WIDTH);
    var W := group.op(P, group.inv(Q[0]));
    if pb == 1 {
      LinearOne(group, Q, 0);
      assert t == Sum(u, OneAt(4, 0));
      LinearSub(group, Q, t, OneAt(4, 0), u);
      P := W;
    } else {
      assert t == u;
    }
  }
}
