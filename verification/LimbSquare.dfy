/** The square `sqr` of a multi-limb integer (`big.rs`): each cross product is computed once and
    doubled.  It is proved equal to the integer square, and so to `mul(a, a)`. */
module LimbSquare {
  import opened Limbs
  import opened Columns
  import opened LimbProduct

  function Middle(a: seq<int>, k: int): int {
    if k % 2 == 0 then At(a, k / 2) * At(a, k / 2) else 0
  }

  lemma CrossMirror(a: seq<int>, k: int, h: int)
    ensures CrossTerm(a, a, k)(k - h) == CrossTerm(a, a, k)(h)
  {
  }

  /** A column of a square is twice its lower half, and the middle. */
  lemma {:induction false} Mirror(a: seq<int>, k: int, h: int)
    requires k >= 0 && h >= k / 2
    ensures RangeSum(CrossTerm(a, a, k), k - h, h + 1)
         == 2 * RangeSum(CrossTerm(a, a, k), k - h, (k + 1) / 2) + Middle(a, k)
    decreases h
  {
    var f := CrossTerm(a, a, k);
    if h > k / 2 {
      Mirror(a, k, h - 1);
      SumFront(f, k - h, h + 1);
      SumFront(f, k - h, (k + 1) / 2);
      CrossMirror(a, k, h);
    } else if k % 2 == 0 {
      SumFront(f, h, h + 1);
    }
  }

  lemma ColumnByHalf(a: seq<int>, k: int, h: int)
    requires 0 <= k < 2 * |a| - 1 && h == if k < |a| then k else |a| - 1
    ensures Column(a, a, k) == 2 * RangeSum(CrossTerm(a, a, k), k - h, (k + 1) / 2) + Middle(a, k)
  {
    var f := CrossTerm(a, a, k);
    forall j | 0 <= j < k - h ensures f(j) == 0 {
      assert At(a, k - j) == 0;
    }
    HeadZero(f, 0, k - h, |a|);
    forall j | h + 1 <= j < |a| ensures f(j) == 0 {
      assert At(a, k - j) == 0;
    }
    TailZero(f, k - h, h + 1, |a|);
    Mirror(a, k, h);
  }

  /** The lower half of column k, from index lo. */
  method HalfColumn(a: array<int>, k: nat, lo: nat) returns (t: int)
    requires Reduced(a[..]) && a.Length <= MAX_LIMBS && lo < (k + 1) / 2 && k - lo < a.Length
    ensures t == RangeSum(CrossTerm(a[..], a[..], k), lo, (k + 1) / 2)
    ensures 0 <= t <= a.Length * SQUARE
  {
    ghost var u := a[..];
    TermBounds(u, u, k, lo);
    assert CrossTerm(u, u, k)(lo) == u[k - lo] * u[lo];
    t := DoubleWord(a[k - lo] * a[lo]);
    assert RangeSum(CrossTerm(u, u, k), lo, lo + 1) == RangeSum(CrossTerm(u, u, k), lo, lo) + CrossTerm(u, u, k)(lo);
    for i := lo + 1 to (k + 1) / 2
      invariant t == RangeSum(CrossTerm(u, u, k), lo, i)
    {
      TermBounds(u, u, k, i);
      CrossBound(u, u, k, lo, i);
      assert CrossTerm(u, u, k)(i) == u[k - i] * u[i];
      t := DoubleWord(t + DoubleWord(a[k - i] * a[i]));
    }
    CrossBound(u, u, k, lo, (k + 1) / 2);
  }

  /** The middle product of an even column. */
  method AddMiddle(a: array<int>, k: nat, t0: int) returns (t: int)
    requires Reduced(a[..]) && a.Length <= MAX_LIMBS && k / 2 < a.Length && 0 <= t0 <= 1002 * SQUARE
    ensures t == t0 + Middle(a[..], k)
  {
    t := t0;
    if k % 2 == 0 {
      assert IsLimb(a[..][k / 2]);
      ProductBound(a[k / 2], a[k / 2]);
      t := DoubleWord(t + DoubleWord(a[k / 2] * a[k / 2]));
    }
  }

  /** The sum of column k: twice the half, the carry, and the middle for an even column. */
  method SquareColumn(a: array<int>, k: nat, lo: nat, co: int, ghost u: seq<int>, ghost cols: seq<int>) returns (t: int)
    requires a[..] == u && Reduced(u) && 1 <= |u| <= MAX_LIMBS && 1 <= k < 2 * |u| - 2 && 0 <= co <= SQUARE
    requires lo == (if k < |u| then 0 else k + 1 - |u|) && IsColumns(cols, u, u)
    ensures t == co + cols[k]
  {
    t := HalfColumn(a, k, lo);
    ColumnByHalf(u, k, k - lo);
    t := DoubleWord(t + t);
    t := DoubleWord(t + co);
    t := AddMiddle(a, k, t);
  }

  lemma ColumnsBound(u: seq<int>, cols: seq<int>, k: nat)
    requires Reduced(u) && |u| <= MAX_LIMBS && IsColumns(cols, u, u) && k < |cols|
    ensures 0 <= cols[k] <= 500 * SQUARE
  {
    CrossBound(u, u, k, 0, |u|);
    assert cols[k] == Column(u, u, k);
  }

  /** One limb out and the carry on. */
  method Emit(a: array<int>, c: array<int>, k: nat, co: int, t: int, ghost u: seq<int>, ghost cols: seq<int>)
    returns (next: int)
    requires a[..] == u && Reduced(u) && |u| <= MAX_LIMBS && a != c && IsColumns(cols, u, u) && k < 2 * |u| - 1
    requires 0 <= co <= SQUARE && t == co + cols[k] && Emitted(c[..], cols, k, co)
    modifies c
    ensures a[..] == u && 0 <= next <= SQUARE && Emitted(c[..], cols, k + 1, next)
  {
    ColumnsBound(u, cols, k);
    next := EmitLimb(c, k, co, t, cols);
  }

  /** Two columns, an odd and an even one. */
  method ColumnPair(a: array<int>, c: array<int>, k: nat, lo: nat, co: int, ghost u: seq<int>, ghost cols: seq<int>)
    returns (next: int)
    requires a[..] == u && Reduced(u) && |u| <= MAX_LIMBS && a != c && IsColumns(cols, u, u)
    requires 1 <= k && k + 1 < 2 * |u| - 2 && (k + 1 < |u| || k >= |u|) && lo == (if k < |u| then 0 else k + 1 - |u|)
    requires 0 <= co <= SQUARE && Emitted(c[..], cols, k, co)
    modifies c
    ensures a[..] == u && 0 <= next <= SQUARE && Emitted(c[..], cols, k + 2, next)
  {
    var t := SquareColumn(a, k, lo, co, u, cols);
    next := Emit(a, c, k, co, t, u, cols);
    t := SquareColumn(a, k + 1, if k < a.Length then 0 else lo + 1, next, u, cols);
    next := Emit(a, c, k + 1, next, t, u, cols);
  }

  lemma FirstColumn(a: seq<int>)
    requires |a| >= 1
    ensures Column(a, a, 0) == a[0] * a[0]
  {
    ColumnByHalf(a, 0, 0);
  }

  lemma LastColumn(a: seq<int>)
    requires |a| >= 1
    ensures Column(a, a, 2 * |a| - 2) == a[|a| - 1] * a[|a| - 1]
  {
    ColumnByHalf(a, 2 * |a| - 2, |a| - 1);
  }

  /** The square of one limb alone. */
  method LimbTimesItself(a: array<int>, i: nat) returns (t: int)
    requires i < a.Length && Reduced(a[..])
    ensures t == a[i] * a[i] && 0 <= t <= SQUARE
  {
    assert IsLimb(a[..][i]);
    ProductBound(a[i], a[i]);
    t := DoubleWord(a[i] * a[i]);
  }

  method SquareFirst(a: array<int>, c: array<int>, ghost u: seq<int>, ghost cols: seq<int>) returns (co: int)
    requires a[..] == u && Reduced(u) && 3 <= |u| <= MAX_LIMBS && a != c && IsColumns(cols, u, u)
    requires Emitted(c[..], cols, 0, 0)
    modifies c
    ensures a[..] == u && 0 <= co <= SQUARE && Emitted(c[..], cols, 1, co)
  {
    FirstColumn(u);
    assert cols[0] == Column(u, u, 0);
    var t := LimbTimesItself(a, 0);
    co := Emit(a, c, 0, 0, t, u, cols);
  }

  method SquareLow(a: array<int>, c: array<int>, co0: int, ghost u: seq<int>, ghost cols: seq<int>) returns (co: int)
    requires a[..] == u && Reduced(u) && 3 <= |u| <= MAX_LIMBS && |u| % 2 == 1 && a != c && IsColumns(cols, u, u)
    requires 0 <= co0 <= SQUARE && Emitted(c[..], cols, 1, co0)
    modifies c
    ensures a[..] == u && 0 <= co <= SQUARE && Emitted(c[..], cols, |u|, co)
  {
    co := co0;
    var j := 1;
    while j < a.Length - 1
      invariant 1 <= j <= |u| && j % 2 == 1 && a[..] == u
      invariant 0 <= co <= SQUARE && Emitted(c[..], cols, j, co)
    {
      co := ColumnPair(a, c, j, 0, co, u, cols);
      j := j + 2;
    }
  }

  method SquareHigh(a: array<int>, c: array<int>, co0: int, ghost u: seq<int>, ghost cols: seq<int>) returns (co: int)
    requires a[..] == u && Reduced(u) && 3 <= |u| <= MAX_LIMBS && |u| % 2 == 1 && a != c && IsColumns(cols, u, u)
    requires 0 <= co0 <= SQUARE && Emitted(c[..], cols, |u|, co0)
    modifies c
    ensures a[..] == u && 0 <= co <= SQUARE && Emitted(c[..], cols, 2 * |u| - 3, co)
  {
    co := co0;
    var n := a.Length;
    var j := n + n % 2 - 1;
    ghost var left := |u| / 2 - 1;
    assert j == |u| && 2 * left == |u| - 3;
    while j < 2 * n - 3
      invariant |u| <= j && j + 2 * left == 2 * |u| - 3 && left >= 0 && a[..] == u
      invariant 0 <= co <= SQUARE && Emitted(c[..], cols, j, co)
    {
      co := ColumnPair(a, c, j, j + 1 - n, co, u, cols);
      j := j + 2;
      left := left - 1;
    }
  }

  /** The last two columns. */
  method SquareLast(a: array<int>, c: array<int>, co0: int, ghost u: seq<int>, ghost cols: seq<int>) returns (co: int)
    requires a[..] == u && Reduced(u) && 3 <= |u| <= MAX_LIMBS && a != c && IsColumns(cols, u, u)
    requires 0 <= co0 <= SQUARE && Emitted(c[..], cols, 2 * |u| - 3, co0)
    modifies c
    ensures a[..] == u && 0 <= co <= SQUARE && Emitted(c[..], cols, 2 * |u| - 1, co)
  {
    var n := a.Length;
    var t := SquareColumn(a, 2 * n - 3, n - 2, co0, u, cols);
    co := Emit(a, c, 2 * n - 3, co0, t, u, cols);
    LastColumn(u);
    assert cols[2 * n - 2] == Column(u, u, 2 * n - 2);
    var top := LimbTimesItself(a, n - 1);
    t := DoubleWord(top + co);
    co := Emit(a, c, 2 * n - 2, co, t, u, cols);
  }

  /** `sqr`: the exact square, for an odd number of limbs as in the library. */
  method Sqr(a: array<int>) returns (c: array<int>)
    requires 3 <= a.Length <= MAX_LIMBS && a.Length % 2 == 1 && Reduced(a[..])
    ensures c.Length == 2 * a.Length && fresh(c)
    ensures Reduced(c[..]) && Value(c[..]) == Value(a[..]) * Value(a[..])
  {
    var n := a.Length;
    ghost var u := a[..];
    ghost var cols := ProductColumns(u, u, 2 * n);
    c := new int[2 * n](_ => 0);
    EmitStarts(c[..], cols);
    var co := SquareFirst(a, c, u, cols);
    co := SquareLow(a, c, co, u, cols);
    co := SquareHigh(a, c, co, u, cols);
    co := SquareLast(a, c, co, u, cols);
    TopCarry(c, co, u, u);
    assert a[..] == u;
  }

  /** Limbs in normal form are determined by their value, so `sqr(a)` and `mul(a, a)` agree limb
      by limb. */
  lemma {:induction false} ReducedUnique(a: seq<int>, b: seq<int>)
    requires Reduced(a) && Reduced(b) && |a| == |b| && Value(a) == Value(b)
    ensures a == b
  {
    ValueFrom(a, 0);
    ValueFrom(b, 0);
    assert a[0..] == a && b[0..] == b;
    assert IsLimb(a[0]) && IsLimb(b[0]);
    assert a[0] == b[0] && Value(a[1..]) == Value(b[1..]);
    if |a| > 1 {
      ReducedUnique(a[1..], b[1..]);
      assert a == [a[0]] + a[1..] && b == [b[0]] + b[1..];
    }
  }
}
