/** Column sums of limb products, and the pairing that replaces two products by one. */
module Columns {
  import opened Vectors
  import opened Limbs

  /** Limb i, zero outside the number. */
  function At(a: seq<int>, i: int): int {
    if 0 <= i < |a| then a[i] else 0
  }

  /** f(lo) + ... + f(hi - 1). */
  function RangeSum(f: int -> int, lo: int, hi: int): int
    decreases hi - lo
  {
    if hi <= lo then 0 else RangeSum(f, lo, hi - 1) + f(hi - 1)
  }

  lemma {:induction false} SumFront(f: int -> int, lo: int, hi: int)
    requires lo < hi
    ensures RangeSum(f, lo, hi) == f(lo) + RangeSum(f, lo + 1, hi)
    decreases hi - lo
  {
    if lo + 1 < hi {
      SumFront(f, lo, hi - 1);
    }
  }

  lemma {:induction false} SumEqual(f: int -> int, g: int -> int, lo: int, hi: int)
    requires forall j :: lo <= j < hi ==> f(j) == g(j)
    ensures RangeSum(f, lo, hi) == RangeSum(g, lo, hi)
    decreases hi - lo
  {
    if lo < hi {
      SumEqual(f, g, lo, hi - 1);
    }
  }

  lemma {:induction false} SumShift(f: int -> int, g: int -> int, lo: int, hi: int)
    requires forall j :: lo <= j < hi ==> f(j) == g(j - 1)
    ensures RangeSum(f, lo, hi) == RangeSum(g, lo - 1, hi - 1)
    decreases hi - lo
  {
    if lo < hi {
      SumShift(f, g, lo, hi - 1);
    }
  }

  lemma {:induction false} TailZero(f: int -> int, lo: int, mid: int, hi: int)
    requires lo <= mid <= hi && forall j :: mid <= j < hi ==> f(j) == 0
    ensures RangeSum(f, lo, hi) == RangeSum(f, lo, mid)
    decreases hi - mid
  {
    if mid < hi {
      TailZero(f, lo, mid, hi - 1);
    }
  }

  lemma {:induction false} HeadZero(f: int -> int, lo: int, mid: int, hi: int)
    requires lo <= mid <= hi && forall j :: lo <= j < mid ==> f(j) == 0
    ensures RangeSum(f, lo, hi) == RangeSum(f, mid, hi)
    decreases mid - lo
  {
    if lo < mid {
      SumFront(f, lo, hi);
      HeadZero(f, lo + 1, mid, hi);
    }
  }

  // ----- the columns of a product

  function CrossTerm(a: seq<int>, b: seq<int>, k: int): int -> int {
    j => At(a, j) * At(b, k - j)
  }

  function DiagTerm(a: seq<int>, b: seq<int>): int -> int {
    j => At(a, j) * At(b, j)
  }

  /** Two cross products less the two diagonal ones, with one multiplication. */
  function PairTerm(a: seq<int>, b: seq<int>, k: int): int -> int {
    j => (At(a, j) - At(a, k - j)) * (At(b, k - j) - At(b, j))
  }

  /** The sum of all products a[i] b[j] with i + j = k. */
  function Column(a: seq<int>, b: seq<int>, k: int): int {
    RangeSum(CrossTerm(a, b, k), 0, |a|)
  }

  function ProductColumns(a: seq<int>, b: seq<int>, m: nat): (c: seq<int>)
    ensures |c| == m
  {
    seq(m, k => Column(a, b, k))
  }

  function Scale(x: int, b: seq<int>, m: nat): (c: seq<int>)
    ensures |c| == m
  {
    seq(m, k => x * At(b, k))
  }

  lemma Distribute(x: int, y: int, v: int)
    ensures x * (y + RADIX * v) == x * y + RADIX * (x * v)
  {
  }

  lemma {:induction false} ScaleValue(x: int, b: seq<int>, m: nat)
    requires m >= |b|
    ensures Value(Scale(x, b, m)) == x * Value(b)
    decreases m
  {
    if m > 0 {
      var rest := if b == [] then [] else b[1..];
      assert Scale(x, b, m)[1..] == Scale(x, rest, m - 1);
      ScaleValue(x, rest, m - 1);
      Distribute(x, At(b, 0), Value(rest));
    }
  }

  lemma ColumnFront(a: seq<int>, b: seq<int>, k: int)
    requires a != []
    ensures Column(a, b, k) == a[0] * At(b, k) + Column(a[1..], b, k - 1)
  {
    var f, g := CrossTerm(a, b, k), CrossTerm(a[1..], b, k - 1);
    SumFront(f, 0, |a|);
    forall j | 1 <= j < |a| ensures f(j) == g(j - 1) {
      assert At(a, j) == At(a[1..], j - 1) && k - j == (k - 1) - (j - 1);
    }
    SumShift(f, g, 1, |a|);
  }

  lemma ColumnBelow(a: seq<int>, b: seq<int>)
    ensures Column(a, b, -1) == 0
  {
    HeadZero(CrossTerm(a, b, -1), 0, |a|, |a|);
  }

  lemma MulAdd(x: int, w: int, b: int)
    ensures (x + RADIX * w) * b == x * b + RADIX * (w * b)
  {
  }

  lemma ColumnsFront(a: seq<int>, b: seq<int>, m: nat)
    requires a != [] && m >= 1
    ensures ProductColumns(a, b, m) == Sum(Scale(a[0], b, m), [0] + ProductColumns(a[1..], b, m - 1))
  {
    var tail := [0] + ProductColumns(a[1..], b, m - 1);
    forall k | 0 <= k < m ensures ProductColumns(a, b, m)[k] == Scale(a[0], b, m)[k] + tail[k] {
      ColumnFront(a, b, k);
      ColumnBelow(a[1..], b);
    }
  }

  /** The columns have the product as their value. */
  lemma {:induction false} ColumnsValue(a: seq<int>, b: seq<int>, m: nat)
    requires m >= |a| + |b|
    ensures Value(ProductColumns(a, b, m)) == Value(a) * Value(b)
    decreases |a|
  {
    if a == [] {
      ColumnsEmpty(b, m);
    } else {
      ColumnsFront(a, b, m);
      ValueCons(0, ProductColumns(a[1..], b, m - 1));
      ColumnsValue(a[1..], b, m - 1);
      ValueSum(Scale(a[0], b, m), [0] + ProductColumns(a[1..], b, m - 1));
      ScaleValue(a[0], b, m);
      MulAdd(a[0], Value(a[1..]), Value(b));
    }
  }

  lemma {:induction false} ColumnsEmpty(b: seq<int>, m: nat)
    ensures Value(ProductColumns([], b, m)) == 0
  {
    if m > 0 {
      assert ProductColumns([], b, m)[1..] == ProductColumns([], b, m - 1);
      ColumnsEmpty(b, m - 1);
    }
  }

  // ----- pairing

  lemma PairIdentity(a: int, c: int, b: int, d: int)
    ensures a * d + c * b == a * b + c * d + (a - c) * (d - b)
  {
  }

  /** Around its middle, a column is its diagonal products plus one product per pair. */
  lemma {:induction false} PairUp(a: seq<int>, b: seq<int>, k: int, h: int)
    requires k >= 0 && h >= k / 2
    ensures RangeSum(CrossTerm(a, b, k), k - h, h + 1)
         == RangeSum(DiagTerm(a, b), k - h, h + 1) + RangeSum(PairTerm(a, b, k), 1 + k / 2, h + 1)
    decreases h
  {
    if h > k / 2 {
      PairUp(a, b, k, h - 1);
      SumFront(CrossTerm(a, b, k), k - h, h + 1);
      SumFront(DiagTerm(a, b), k - h, h + 1);
      PairIdentity(At(a, h), At(a, k - h), At(b, h), At(b, k - h));
      PairOuter(a, b, k, h);
    } else if k % 2 == 0 {
      PairMiddle(a, b, k, h);
    }
  }

  lemma PairMiddle(a: seq<int>, b: seq<int>, k: int, h: int)
    requires k == 2 * h
    ensures RangeSum(CrossTerm(a, b, k), h, h + 1) == RangeSum(DiagTerm(a, b), h, h + 1)
  {
    assert CrossTerm(a, b, k)(h) == DiagTerm(a, b)(h);
    SumFront(CrossTerm(a, b, k), h, h + 1);
    SumFront(DiagTerm(a, b), h, h + 1);
  }

  /** The outermost pair. */
  lemma PairOuter(a: seq<int>, b: seq<int>, k: int, h: int)
    ensures CrossTerm(a, b, k)(k - h) + CrossTerm(a, b, k)(h)
         == DiagTerm(a, b)(k - h) + DiagTerm(a, b)(h) + PairTerm(a, b, k)(h)
  {
    PairIdentity(At(a, h), At(a, k - h), At(b, h), At(b, k - h));
  }

  /** A column by diagonal products and pairs, where h is the highest index in it. */
  lemma ColumnByPairs(a: seq<int>, b: seq<int>, k: int, h: int)
    requires |a| == |b| && 0 <= k < 2 * |a| - 1 && h == if k < |a| then k else |a| - 1
    ensures Column(a, b, k)
         == RangeSum(DiagTerm(a, b), k - h, h + 1) + RangeSum(PairTerm(a, b, k), 1 + k / 2, h + 1)
  {
    var f := CrossTerm(a, b, k);
    forall j | 0 <= j < k - h ensures f(j) == 0 {
      assert At(b, k - j) == 0;
    }
    HeadZero(f, 0, k - h, |a|);
    forall j | h + 1 <= j < |a| ensures f(j) == 0 {
      assert At(b, k - j) == 0;
    }
    TailZero(f, k - h, h + 1, |a|);
    PairUp(a, b, k, h);
  }
}
