/** Products of multi-limb integers (`big.rs`): the Karatsuba-style product `mul` and the square
    `sqr`, proved equal to the integer product, with every intermediate in 128 bits. */
module LimbProduct {
  import opened Limbs
  import opened Columns

  /** 2^116, the square of the radix. */
  const SQUARE: int := 0x10_0000_0000_0000_0000_0000_0000_0000

  /** A 128-bit word: the precondition is the absence of overflow. */
  function DoubleWord(x: int): int
    requires -0x8000_0000_0000_0000_0000_0000_0000_0000 <= x < 0x8000_0000_0000_0000_0000_0000_0000_0000
  {
    x
  }

  /** With this many limbs a column still fits 128 bits; the library has seven. */
  const MAX_LIMBS: nat := 500

  lemma ProductBound(x: int, y: int)
    requires -RADIX < x < RADIX && -RADIX < y < RADIX
    ensures -SQUARE <= x * y <= SQUARE
    ensures x >= 0 && y >= 0 ==> x * y >= 0
  {
    var u, v := if x < 0 then -x else x, if y < 0 then -y else y;
    assert u * v <= RADIX * v <= SQUARE by { MulLess(u, RADIX, v); }
    assert x * y == u * v || x * y == -(u * v);
    MulLess(0, u, v);
  }

  lemma MulLess(x: int, y: int, v: int)
    requires x <= y && v >= 0
    ensures x * v <= y * v
  {
  }

  lemma TermBounds(a: seq<int>, b: seq<int>, k: int, j: int)
    requires Reduced(a) && Reduced(b)
    ensures 0 <= DiagTerm(a, b)(j) <= SQUARE && 0 <= CrossTerm(a, b, k)(j) <= SQUARE
    ensures -SQUARE <= PairTerm(a, b, k)(j) <= SQUARE
  {
    ProductBound(At(a, j), At(b, j));
    ProductBound(At(a, j), At(b, k - j));
    ProductBound(At(a, j) - At(a, k - j), At(b, k - j) - At(b, j));
  }

  lemma {:induction false} DiagBound(a: seq<int>, b: seq<int>, lo: int, hi: int)
    requires Reduced(a) && Reduced(b) && lo <= hi
    ensures 0 <= RangeSum(DiagTerm(a, b), lo, hi) <= (hi - lo) * SQUARE
    decreases hi - lo
  {
    if lo < hi {
      DiagBound(a, b, lo, hi - 1);
      TermBounds(a, b, 0, hi - 1);
    }
  }

  lemma {:induction false} CrossBound(a: seq<int>, b: seq<int>, k: int, lo: int, hi: int)
    requires Reduced(a) && Reduced(b) && lo <= hi
    ensures 0 <= RangeSum(CrossTerm(a, b, k), lo, hi) <= (hi - lo) * SQUARE
    decreases hi - lo
  {
    if lo < hi {
      CrossBound(a, b, k, lo, hi - 1);
      TermBounds(a, b, k, hi - 1);
    }
  }

  // ----- mul

  /** The diagonal products. */
  method Diagonal(a: array<int>, b: array<int>, ghost f: int -> int) returns (d: array<int>)
    requires a.Length == b.Length && Reduced(a[..]) && Reduced(b[..])
    requires IsDiagonal(f, a[..], b[..])
    ensures d.Length == a.Length && fresh(d) && forall j :: 0 <= j < d.Length ==> d[j] == f(j)
  {
    d := new int[a.Length];
    for i := 0 to a.Length
      invariant forall j :: 0 <= j < i ==> d[j] == f(j)
    {
      assert f(i) == DiagTerm(a[..], b[..])(i);
      TermBounds(a[..], b[..], 0, i);
      d[i] := DoubleWord(a[i] * b[i]);
    }
  }

  /** One product for the pair at i. */
  method PairProduct(a: array<int>, b: array<int>, k: nat, i: nat) returns (p: int)
    requires a.Length == b.Length && Reduced(a[..]) && Reduced(b[..]) && i <= k && i < a.Length && k - i < a.Length
    ensures p == PairTerm(a[..], b[..], k)(i) && -SQUARE <= p <= SQUARE
  {
    TermBounds(a[..], b[..], k, i);
    assert IsLimb(a[..][i]) && IsLimb(a[..][k - i]) && IsLimb(b[..][i]) && IsLimb(b[..][k - i]);
    p := DoubleWord(Word(a[i] - a[k - i]) * Word(b[k - i] - b[i]));
  }

  /** The inner loop: t plus one product for every pair in column k. */
  method AddPairs(a: array<int>, b: array<int>, k: nat, hi: nat, t0: int) returns (t: int)
    requires a.Length == b.Length <= MAX_LIMBS && Reduced(a[..]) && Reduced(b[..])
    requires 1 + k / 2 <= hi <= a.Length && hi <= k + 1 && 0 <= t0 <= 502 * SQUARE
    ensures t == t0 + RangeSum(PairTerm(a[..], b[..], k), 1 + k / 2, hi)
  {
    ghost var f := PairTerm(a[..], b[..], k);
    t := t0;
    for i := 1 + k / 2 to hi
      invariant t == t0 + RangeSum(f, 1 + k / 2, i)
      invariant -(i - 1 - k / 2) * SQUARE <= t - t0 <= (i - 1 - k / 2) * SQUARE
    {
      var p := PairProduct(a, b, k, i);
      t := DoubleWord(t + p);
    }
  }

  /** f gives the diagonal products. */
  ghost predicate IsDiagonal(f: int -> int, u: seq<int>, v: seq<int>) {
    forall j {:trigger DiagTerm(u, v)(j)} :: f(j) == DiagTerm(u, v)(j)
  }

  /** cols are the columns of the product, with an empty one on top for the last carry. */
  ghost predicate IsColumns(cols: seq<int>, u: seq<int>, v: seq<int>) {
    |u| == |v| && |cols| == 2 * |u|
    && forall k {:trigger Column(u, v, k)} :: 0 <= k < |cols| ==> cols[k] == Column(u, v, k)
  }

  lemma ColumnAbove(a: seq<int>, b: seq<int>)
    requires |a| == |b| >= 1
    ensures Column(a, b, 2 * |a| - 1) == 0
  {
    var f := CrossTerm(a, b, 2 * |a| - 1);
    forall j | 0 <= j < |a| ensures f(j) == 0 {
      assert At(b, 2 * |a| - 1 - j) == 0;
    }
    HeadZero(f, 0, |a|, |a|);
  }

  /** What makes up column k. */
  lemma ColumnParts(u: seq<int>, v: seq<int>, f: int -> int, cols: seq<int>, k: nat, hi: nat)
    requires |u| == |v| <= MAX_LIMBS && Reduced(u) && Reduced(v) && IsDiagonal(f, u, v) && IsColumns(cols, u, v)
    requires k < 2 * |u| - 1 && hi == (if k < |u| then k + 1 else |u|)
    ensures cols[k] == RangeSum(f, k + 1 - hi, hi) + RangeSum(PairTerm(u, v, k), 1 + k / 2, hi)
    ensures 0 <= cols[k] <= 500 * SQUARE && 0 <= RangeSum(f, k + 1 - hi, hi) <= 500 * SQUARE
  {
    DiagonalSumBound(u, v, f, k + 1 - hi, hi);
    SumEqual(f, DiagTerm(u, v), k + 1 - hi, hi);
    ColumnByPairs(u, v, k, hi - 1);
    CrossBound(u, v, k, 0, |u|);
  }

  /** The sum of column k and the carry: the diagonal sum and one product for each pair. */
  method ColumnSum(a: array<int>, b: array<int>, k: nat, s: int, t0: int, hi: nat,
                   ghost u: seq<int>, ghost v: seq<int>, ghost f: int -> int, ghost cols: seq<int>) returns (t: int)
    requires a[..] == u && b[..] == v && |u| == |v| <= MAX_LIMBS && Reduced(u) && Reduced(v)
    requires IsDiagonal(f, u, v) && IsColumns(cols, u, v)
    requires k < 2 * |u| - 1 && hi == (if k < |u| then k + 1 else |u|) && s == RangeSum(f, k + 1 - hi, hi)
             && 0 <= t0 <= SQUARE
    ensures t == t0 + cols[k] && 0 <= cols[k] <= 500 * SQUARE
  {
    ColumnParts(u, v, f, cols, k, hi);
    t := DoubleWord(t0 + s);
    t := AddPairs(a, b, k, hi, t);
  }

  /** One limb out and the carry on. */
  method EmitLimb(c: array<int>, k: nat, ghost co: int, t: int, ghost cols: seq<int>) returns (next: int)
    requires Emitted(c[..], cols, k, co) && k + 1 < |cols| && 0 <= co <= SQUARE
    requires t == co + cols[k] && 0 <= cols[k] <= 500 * SQUARE
    modifies c
    ensures 0 <= next <= SQUARE && Emitted(c[..], cols, k + 1, next)
  {
    ghost var c0 := c[..];
    EmitStep(c0, cols, k, co, t);
    c[k] := t % RADIX;
    next := t / RADIX;
    assert c[..] == c0[k := c[k]];
  }

  /** One column of `mul`. */
  method MulColumn(a: array<int>, b: array<int>, c: array<int>, k: nat, s: int, t0: int, hi: nat,
                   ghost u: seq<int>, ghost v: seq<int>, ghost f: int -> int, ghost cols: seq<int>) returns (t: int)
    requires a[..] == u && b[..] == v && |u| == |v| <= MAX_LIMBS && Reduced(u) && Reduced(v) && c != a && c != b
    requires IsDiagonal(f, u, v) && IsColumns(cols, u, v)
    requires k < 2 * |u| - 1 && hi == (if k < |u| then k + 1 else |u|) && s == RangeSum(f, k + 1 - hi, hi)
    requires 0 <= t0 <= SQUARE && Emitted(c[..], cols, k, t0)
    modifies c
    ensures 0 <= t <= SQUARE && Emitted(c[..], cols, k + 1, t)
  {
    t := ColumnSum(a, b, k, s, t0, hi, u, v, f, cols);
    t := EmitLimb(c, k, t0, t, cols);
  }

  lemma DiagonalSumBound(u: seq<int>, v: seq<int>, f: int -> int, lo: int, hi: int)
    requires Reduced(u) && Reduced(v) && IsDiagonal(f, u, v) && lo <= hi
    ensures 0 <= RangeSum(f, lo, hi) <= (hi - lo) * SQUARE
  {
    SumEqual(f, DiagTerm(u, v), lo, hi);
    DiagBound(u, v, lo, hi);
  }

  /** The columns below the middle: the diagonal sum grows. */
  method MulLow(a: array<int>, b: array<int>, d: array<int>, c: array<int>,
                ghost u: seq<int>, ghost v: seq<int>, ghost f: int -> int, ghost cols: seq<int>)
    returns (s: int, t: int)
    requires a[..] == u && b[..] == v && 1 <= |u| == |v| == d.Length <= MAX_LIMBS && Reduced(u) && Reduced(v)
    requires c != a && c != b && c != d && Emitted(c[..], cols, 0, 0)
    requires IsDiagonal(f, u, v) && IsColumns(cols, u, v)
    requires forall j :: 0 <= j < d.Length ==> d[j] == f(j)
    modifies c
    ensures s == RangeSum(f, 0, |u|)
    ensures 0 <= t <= SQUARE && Emitted(c[..], cols, |u|, t)
  {
    s := d[0];
    t := MulColumn(a, b, c, 0, s, 0, 1, u, v, f, cols);
    for k := 1 to a.Length
      invariant a[..] == u && b[..] == v
      invariant s == RangeSum(f, 0, k)
      invariant 0 <= t <= SQUARE && Emitted(c[..], cols, k, t)
    {
      DiagonalSumBound(u, v, f, 0, k + 1);
      s := DoubleWord(s + d[k]);
      t := MulColumn(a, b, c, k, s, t, k + 1, u, v, f, cols);
    }
  }

  /** The columns above the middle: the diagonal sum shrinks. */
  method MulHigh(a: array<int>, b: array<int>, d: array<int>, c: array<int>, s0: int, t0: int,
                 ghost u: seq<int>, ghost v: seq<int>, ghost f: int -> int, ghost cols: seq<int>) returns (t: int)
    requires a[..] == u && b[..] == v && 1 <= |u| == |v| == d.Length <= MAX_LIMBS && Reduced(u) && Reduced(v)
    requires c != a && c != b && c != d && 0 <= t0 <= SQUARE && Emitted(c[..], cols, |u|, t0)
    requires IsDiagonal(f, u, v) && IsColumns(cols, u, v)
    requires forall j :: 0 <= j < d.Length ==> d[j] == f(j)
    requires s0 == RangeSum(f, 0, |u|)
    modifies c
    ensures Emitted(c[..], cols, 2 * |u| - 1, t)
  {
    var n := a.Length;
    var s := s0;
    t := t0;
    for k := n to 2 * n - 1
      invariant a[..] == u && b[..] == v
      invariant s == RangeSum(f, k - n, n)
      invariant 0 <= t <= SQUARE && Emitted(c[..], cols, k, t)
    {
      SumFront(f, k - n, n);
      DiagonalSumBound(u, v, f, k - n + 1, n);
      s := DoubleWord(s - d[k - n]);
      t := MulColumn(a, b, c, k, s, t, n, u, v, f, cols);
    }
  }

  /** The last carry is the top limb of the product. */
  lemma ProductTop(u: seq<int>, v: seq<int>, c: seq<int>, t: int)
    requires 1 <= |u| == |v| && Reduced(u) && Reduced(v)
    requires Emitted(c, ProductColumns(u, v, 2 * |u|), 2 * |u| - 1, t)
    ensures IsLimb(t) && Reduced(c[2 * |u| - 1 := t]) && Value(c[2 * |u| - 1 := t]) == Value(u) * Value(v)
  {
    ColumnAbove(u, v);
    EmitLast(c, ProductColumns(u, v, 2 * |u|), t);
    ColumnsValue(u, v, 2 * |u|);
    var r := c[2 * |u| - 1 := t];
    ProductRange(u, v, r);
    assert IsLimb(r[2 * |u| - 1]);
  }

  /** `mul`: the exact product, with one multiplication for each pair of cross products. */
  method Mul(a: array<int>, b: array<int>) returns (c: array<int>)
    requires 1 <= a.Length == b.Length <= MAX_LIMBS && Reduced(a[..]) && Reduced(b[..])
    ensures c.Length == 2 * a.Length && fresh(c)
    ensures Reduced(c[..]) && Value(c[..]) == Value(a[..]) * Value(b[..])
  {
    var n := a.Length;
    ghost var u, v := a[..], b[..];
    ghost var f, cols := DiagTerm(u, v), ProductColumns(u, v, 2 * n);
    c := new int[2 * n](_ => 0);
    var d := Diagonal(a, b, f);
    EmitStarts(c[..], cols);
    var s, t := MulLow(a, b, d, c, u, v, f, cols);
    assert a[..] == u && b[..] == v;
    t := MulHigh(a, b, d, c, s, t, u, v, f, cols);
    TopCarry(c, t, u, v);
    assert a[..] == u && b[..] == v;
  }

  /** The last carry completes the product. */
  method TopCarry(c: array<int>, t: int, ghost u: seq<int>, ghost v: seq<int>)
    requires 1 <= |u| == |v| && Reduced(u) && Reduced(v) && c.Length == 2 * |u|
    requires Emitted(c[..], ProductColumns(u, v, 2 * |u|), 2 * |u| - 1, t)
    modifies c
    ensures Reduced(c[..]) && Value(c[..]) == Value(u) * Value(v)
  {
    ghost var c0 := c[..];
    ProductTop(u, v, c0, t);
    c[c.Length - 1] := Word(t);
    assert c[..] == c0[2 * |u| - 1 := t];
  }

  // ----- the range of a product

  lemma {:induction false} ScaledTwice(x: int, j: nat, k: nat)
    ensures Scaled(Scaled(x, j), k) == Scaled(x, j + k)
  {
    if k > 0 {
      ScaledTwice(x, j, k - 1);
    }
  }

  lemma ProductBelow(x: int, y: int, r: int)
    requires 0 <= x < r && 0 <= y < r
    ensures 0 <= x * y < r * r
  {
    MulLess(0, x, y);
    MulLess(x, r - 1, y);
    MulLess(y, r - 1, r);
  }

  /** The product of two reduced numbers is in the range of twice as many limbs. */
  lemma ProductRange(a: seq<int>, b: seq<int>, c: seq<int>)
    requires Reduced(a) && Reduced(b) && |a| == |b| && |c| == 2 * |a| && Normal(c) && Value(c) == Value(a) * Value(b)
    ensures Reduced(c)
  {
    var n := |a|;
    ReducedIff(a);
    ReducedIff(b);
    ReducedIff(c);
    var r := Scaled(RADIX, n - 1);
    ProductBelow(Value(a), Value(b), r);
    ScaledTimes(RADIX, n - 1, r);
    ScaledTwice(RADIX, n - 1, 1);
    ScaledTwice(RADIX, n, n - 1);
    assert RADIX * r == Scaled(RADIX, n);
  }
}
