/** Montgomery reduction `monty` of a double-length integer (`big.rs`): multiples of the modulus
    clear the low limbs one by one, and the high limbs are the result. */
module Montgomery {
  import opened Limbs
  import opened Vectors
  import opened Columns
  import opened LimbProduct
  import Residues

  // ----- the digit that clears a limb

  /** Multiplication of 64-bit words with wrap-around. */
  function WrappingMul(x: int, y: int): int {
    (x * y + 0x8000_0000_0000_0000) % 0x1_0000_0000_0000_0000 - 0x8000_0000_0000_0000
  }

  function ClearingDigit(t: int, mc: int): (x: int)
    ensures IsLimb(x)
  {
    WrappingMul(t % RADIX, mc) % RADIX
  }

  lemma WrapKeepsLow(y: int)
    ensures ((y + 0x8000_0000_0000_0000) % 0x1_0000_0000_0000_0000 - 0x8000_0000_0000_0000) % RADIX == y % RADIX
  {
  }

  lemma TimesMinusOne(r: int, z: int)
    ensures r * (RADIX * z - 1) == RADIX * (r * z) - r
  {
  }

  lemma TimesDifference(r: int, mc: int, j: int, m0: int)
    ensures (r * mc - RADIX * j) * m0 == r * (mc * m0) - RADIX * (j * m0)
  {
  }

  /** t = R i + r, x = r.mc - R j and mc.m0 = R z - 1 make t + x.m0 a multiple of R. */
  lemma DigitIdentity(t: int, i: int, r: int, mc: int, j: int, x: int, m0: int, z: int)
    requires t == RADIX * i + r && x == r * mc - RADIX * j && mc * m0 == RADIX * z - 1
    ensures t + x * m0 == RADIX * (i + r * z - j * m0)
  {
    TimesDifference(r, mc, j, m0);
    TimesMinusOne(r, z);
  }

  lemma MultipleOfRadix(k: int)
    ensures (RADIX * k) % RADIX == 0
  {
  }

  lemma DigitWitness(t: int, mc: int) returns (j: int)
    ensures ClearingDigit(t, mc) == (t % RADIX) * mc - RADIX * j
  {
    var y := (t % RADIX) * mc;
    WrapKeepsLow(y);
    j := y / RADIX;
  }

  lemma InverseWitness(y: int) returns (z: int)
    requires y % RADIX == RADIX - 1
    ensures y == RADIX * z - 1
  {
    z := y / RADIX + 1;
  }

  /** Adding that multiple of the modulus makes the lowest limb zero. */
  lemma DigitClears(t: int, mc: int, m0: int)
    requires (mc * m0) % RADIX == RADIX - 1
    ensures (t + ClearingDigit(t, mc) * m0) % RADIX == 0
  {
    var i, r := t / RADIX, t % RADIX;
    var j := DigitWitness(t, mc);
    var z := InverseWitness(mc * m0);
    DigitIdentity(t, i, r, mc, j, ClearingDigit(t, mc), m0, z);
    MultipleOfRadix(i + r * z - j * m0);
  }

  // ----- columns while digits are being chosen

  lemma {:induction false} SumUpdate(f: int -> int, g: int -> int, lo: int, hi: int, i: int)
    requires lo <= i < hi && forall j :: lo <= j < hi && j != i ==> f(j) == g(j)
    ensures RangeSum(g, lo, hi) == RangeSum(f, lo, hi) - f(i) + g(i)
    decreases hi - lo
  {
    if i == hi - 1 {
      SumEqual(f, g, lo, hi - 1);
    } else {
      SumUpdate(f, g, lo, hi - 1, i);
    }
  }

  /** A new digit x at position k adds x.m to the columns from k on. */
  lemma ColumnUpdate(w: seq<int>, m: seq<int>, k: nat, x: int, j: int)
    requires k < |w| && w[k] == 0
    ensures Column(w[k := x], m, j) == Column(w, m, j) + x * At(m, j - k)
  {
    var f, g := CrossTerm(w, m, j), CrossTerm(w[k := x], m, j);
    forall i | 0 <= i < |w| && i != k ensures f(i) == g(i) {
      assert At(w, i) == At(w[k := x], i);
    }
    SumUpdate(f, g, 0, |w|, k);
  }

  lemma OpenTail(w: seq<int>, m: seq<int>, k: nat)
    requires k < |w| && forall i :: k <= i < |w| ==> w[i] == 0
    ensures Column(w, m, k) == RangeSum(CrossTerm(w, m, k), 0, k)
  {
    var f := CrossTerm(w, m, k);
    forall i | k <= i < |w| ensures f(i) == 0 {
      assert At(w, i) == 0;
    }
    TailZero(f, 0, k, |w|);
  }

  lemma OpenHead(w: seq<int>, m: seq<int>, k: nat)
    requires 1 <= k < |w| == |m|
    ensures RangeSum(CrossTerm(w, m, k), 0, k) == w[0] * m[k] + RangeSum(CrossTerm(w, m, k), 1, k)
  {
    SumFront(CrossTerm(w, m, k), 0, k);
  }

  /** With k digits chosen, column k is v0.m[k], the diagonal products 1 .. k - 1 and the pairs. */
  lemma OpenColumn(w: seq<int>, m: seq<int>, k: nat)
    requires 1 <= k < |w| == |m| && forall i :: k <= i < |w| ==> w[i] == 0
    ensures Column(w, m, k) == w[0] * m[k] + RangeSum(DiagTerm(w, m), 1, k) + RangeSum(PairTerm(w, m, k), 1 + k / 2, k)
  {
    OpenTail(w, m, k);
    OpenHead(w, m, k);
    InnerPairs(w, m, k);
  }

  lemma InnerPairs(w: seq<int>, m: seq<int>, k: nat)
    requires k >= 1
    ensures RangeSum(CrossTerm(w, m, k), 1, k)
            == RangeSum(DiagTerm(w, m), 1, k) + RangeSum(PairTerm(w, m, k), 1 + k / 2, k)
  {
    var h := k - 1;
    PairUp(w, m, k, h);
    assert k - h == 1 && h + 1 == k;
  }

  /** The k lowest limbs of d + w.m are cleared, and cs are the carries out of them. */
  ghost predicate Cleared(d: seq<int>, w: seq<int>, m: seq<int>, cs: seq<int>, k: nat) {
    && |w| == |m| && |d| == 2 * |w| && k <= |w| && |cs| == k + 1 && cs[0] == 0
    && (forall i :: k <= i < |w| ==> w[i] == 0)
    && (forall j {:trigger Column(w, m, j)} :: 0 <= j < k ==> d[j] + Column(w, m, j) + cs[j] == RADIX * cs[j + 1])
  }

  lemma ClearedNext(d: seq<int>, w: seq<int>, m: seq<int>, cs: seq<int>, k: nat, x: int, next: int)
    requires Cleared(d, w, m, cs, k) && k < |w|
    requires d[k] + (Column(w, m, k) + x * m[0]) + cs[k] == RADIX * next
    ensures Cleared(d, w[k := x], m, cs + [next], k + 1)
  {
    var w1, cs1 := w[k := x], cs + [next];
    forall j | 0 <= j < k + 1 ensures d[j] + Column(w1, m, j) + cs1[j] == RADIX * cs1[j + 1] {
      ColumnUpdate(w, m, k, x, j);
      if j < k {
        assert At(m, j - k) == 0;
      }
    }
  }

  /** d + w.m by columns. */
  function Total(d: seq<int>, w: seq<int>, m: seq<int>): (e: seq<int>)
    ensures |e| == |d|
  {
    seq(|d|, k requires 0 <= k < |d| => d[k] + Column(w, m, k))
  }

  /** Columns whose carries come out even leave zero limbs. */
  lemma {:induction false} CarriesAway(e: seq<int>, cs: seq<int>, i: nat)
    requires i < |e| && i < |cs| && cs[0] == 0
    requires forall j :: 0 <= j < i ==> e[j] + cs[j] == RADIX * cs[j + 1]
    ensures Carried(e, 0) == Zeros(i) + Carried(e[i..], cs[i])
  {
    if i == 0 {
      assert e[0..] == e && Zeros(0) == [];
    } else {
      CarriesAway(e, cs, i - 1);
      CarriedFrom(e, i - 1, cs[i - 1]);
      assert Zeros(i) == Zeros(i - 1) + [0];
    }
  }

  lemma ClearedCarries(d: seq<int>, w: seq<int>, m: seq<int>, cs: seq<int>)
    requires Cleared(d, w, m, cs, |w|) && |w| >= 1
    ensures Carried(Total(d, w, m), 0) == Zeros(|w|) + Carried(Total(d, w, m)[|w|..], cs[|w|])
  {
    var e := Total(d, w, m);
    forall j | 0 <= j < |w| ensures e[j] + cs[j] == RADIX * cs[j + 1] {
      assert e[j] == d[j] + Column(w, m, j);
    }
    CarriesAway(e, cs, |w|);
  }

  lemma {:induction false} ValueShifted(n: nat, x: seq<int>)
    ensures Value(Zeros(n) + x) == Scaled(Value(x), n)
  {
    if n == 0 {
      assert Zeros(0) + x == x;
    } else {
      assert (Zeros(n) + x)[1..] == Zeros(n - 1) + x;
      ValueShifted(n - 1, x);
    }
  }

  lemma TotalValue(d: seq<int>, w: seq<int>, m: seq<int>)
    requires |w| == |m| && |d| == 2 * |w|
    ensures Value(Total(d, w, m)) == Value(d) + Value(w) * Value(m)
  {
    assert Total(d, w, m) == Sum(d, ProductColumns(w, m, |d|));
    ValueSum(d, ProductColumns(w, m, |d|));
    ColumnsValue(w, m, |d|);
  }

  /** The columns above the cleared ones, with the carry into them. */
  ghost function Upper(d: seq<int>, w: seq<int>, m: seq<int>, carry: int): (u: seq<int>)
    requires |d| == 2 * |w| && |w| >= 1
    ensures |u| == |w|
  {
    seq(|w|, i requires 0 <= i < |w| => d[|w| + i] + Column(w, m, |w| + i) + (if i == 0 then carry else 0))
  }

  /** What the upper columns amount to. */
  lemma UpperValue(d: seq<int>, w: seq<int>, m: seq<int>, cs: seq<int>)
    requires |w| >= 1 && Cleared(d, w, m, cs, |w|)
    ensures Scaled(Value(Upper(d, w, m, cs[|w|])), |w|) == Value(d) + Value(w) * Value(m)
  {
    var n, e, up := |w|, Total(d, w, m), Upper(d, w, m, cs[|w|]);
    ClearedCarries(d, w, m, cs);
    CarriedMeaning(e, 0);
    CarriedMeaning(e[n..], cs[n]);
    ValueShifted(n, Carried(e[n..], cs[n]));
    TotalValue(d, w, m);
    assert up[1..] == e[n..][1..];
    assert up[0] == e[n..][0] + cs[n];
  }

  // ----- the lower loop

  lemma ColumnRange(w: seq<int>, m: seq<int>, k: int)
    requires Reduced(w) && Reduced(m) && |w| <= MAX_LIMBS
    ensures 0 <= Column(w, m, k) <= 500 * SQUARE
  {
    CrossBound(w, m, k, 0, |w|);
  }

  /** Column k with the digits chosen so far. */
  method OpenSum(v: array<int>, md: array<int>, k: nat, s: int, t0: int, ghost w: seq<int>, ghost m: seq<int>)
    returns (t: int)
    requires v[..] == w && md[..] == m && Reduced(w) && Reduced(m) && 1 <= k < |w| == |m| <= MAX_LIMBS
    requires forall i :: k <= i < |w| ==> w[i] == 0
    requires 0 <= t0 <= 2 * SQUARE && s == RangeSum(DiagTerm(w, m), 1, k)
    ensures t == t0 + Column(w, m, k)
  {
    OpenColumn(w, m, k);
    DiagBound(w, m, 1, k);
    assert IsLimb(w[0]) && IsLimb(m[k]);
    ProductBound(w[0], m[k]);
    t := DoubleWord(t0 + s + v[0] * md[k]);
    t := AddPairs(v, md, k, k, t);
  }

  lemma DiagonalKept(w: seq<int>, m: seq<int>, k: nat, x: int)
    requires k < |w| == |m|
    ensures RangeSum(DiagTerm(w[k := x], m), 1, k) == RangeSum(DiagTerm(w, m), 1, k)
    ensures k >= 1 ==> RangeSum(DiagTerm(w[k := x], m), 1, k + 1) == RangeSum(DiagTerm(w, m), 1, k) + x * m[k]
  {
    var f, g := DiagTerm(w[k := x], m), DiagTerm(w, m);
    forall j | 1 <= j < k ensures f(j) == g(j) {
      assert At(w[k := x], j) == At(w, j);
    }
    SumEqual(f, g, 1, k);
    assert f(k) == x * m[k];
  }

  /** The digit for column k, and the carry out of it. */
  method ChooseDigit(v: array<int>, md: array<int>, mc: int, k: nat, t: int, ghost d: seq<int>, ghost w: seq<int>,
                     ghost m: seq<int>, ghost cs: seq<int>) returns (carry: int)
    requires v[..] == w && md[..] == m && v != md && Reduced(w) && Reduced(m) && |w| <= MAX_LIMBS && Reduced(d)
    requires Cleared(d, w, m, cs, k) && k < |w| && 0 <= cs[k] <= SQUARE && (mc * m[0]) % RADIX == RADIX - 1
    requires t == d[k] + cs[k] + Column(w, m, k)
    modifies v
    ensures Reduced(v[..]) && v[..] == w[k := v[k]]
    ensures 0 <= carry <= SQUARE && Cleared(d, v[..], m, cs + [carry], k + 1)
  {
    var x := ClearingDigit(t, mc);
    v[k] := x;
    DigitClears(t, mc, m[0]);
    ColumnRange(w, m, k);
    assert IsLimb(m[0]) && IsLimb(d[k]);
    ProductBound(x, m[0]);
    var sum := DoubleWord(t + x * md[0]);
    carry := sum / RADIX;
    ClearedNext(d, w, m, cs, k, x, carry);
    assert v[..] == w[k := x];
  }

  /** One round of the lower loop, after which the diagonal sum has grown too. */
  method ClearColumn(v: array<int>, md: array<int>, mc: int, k: nat, s0: int, t0: int, ghost d: seq<int>,
                     ghost w: seq<int>, ghost m: seq<int>, ghost cs: seq<int>) returns (s: int, dd: int, carry: int)
    requires v[..] == w && md[..] == m && v != md && Reduced(w) && Reduced(m) && |w| <= MAX_LIMBS && Reduced(d)
    requires Cleared(d, w, m, cs, k) && 1 <= k < |w| && 0 <= cs[k] <= SQUARE && (mc * m[0]) % RADIX == RADIX - 1
    requires t0 == d[k] + cs[k] && s0 == RangeSum(DiagTerm(w, m), 1, k)
    modifies v
    ensures Reduced(v[..]) && v[..] == w[k := v[k]] && md[..] == m
    ensures 0 <= carry <= SQUARE && Cleared(d, v[..], m, cs + [carry], k + 1)
    ensures dd == v[k] * m[k] && s == RangeSum(DiagTerm(v[..], m), 1, k + 1)
  {
    assert IsLimb(d[k]);
    var t := OpenSum(v, md, k, s0, t0, w, m);
    carry := ChooseDigit(v, md, mc, k, t, d, w, m, cs);
    s, dd := GrowDiagonal(w, m, k, v[k], md[k], s0);
  }

  method GrowDiagonal(ghost w: seq<int>, ghost m: seq<int>, ghost k: nat, x: int, y: int, s0: int)
    returns (s: int, dd: int)
    requires Reduced(w) && Reduced(m) && 1 <= k < |w| == |m| <= MAX_LIMBS && IsLimb(x) && y == m[k]
    requires s0 == RangeSum(DiagTerm(w, m), 1, k)
    ensures dd == x * y && s == RangeSum(DiagTerm(w[k := x], m), 1, k + 1)
  {
    assert IsLimb(m[k]);
    ProductBound(x, y);
    DiagBound(w, m, 1, k);
    DiagonalKept(w, m, k, x);
    dd := DoubleWord(x * y);
    s := DoubleWord(s0 + dd);
  }

  lemma EmptyColumn(w: seq<int>, m: seq<int>, k: int)
    requires forall i :: 0 <= i < |w| ==> w[i] == 0
    ensures Column(w, m, k) == 0
  {
    var f := CrossTerm(w, m, k);
    forall j | 0 <= j < |w| ensures f(j) == 0 {
      assert At(w, j) == 0;
    }
    HeadZero(f, 0, |w|, |w|);
  }

  /** The lower loop: all digits, the diagonal products and the carries. */
  method Lower(d: array<int>, v: array<int>, dd: array<int>, md: array<int>, mc: int, ghost m: seq<int>)
      returns (s: int, carry: int, ghost cs: seq<int>)
    requires md[..] == m && Reduced(m) && 1 <= |m| <= MAX_LIMBS && (mc * m[0]) % RADIX == RADIX - 1
    requires d.Length == 2 * |m| && Reduced(d[..]) && v.Length == dd.Length == |m|
    requires v != md && v != d && v != dd && dd != md && dd != d && forall i :: 0 <= i < |m| ==> v[i] == 0
    modifies v, dd
    ensures Reduced(v[..]) && Cleared(d[..], v[..], m, cs, |m|)
    ensures carry == cs[|m|] && 0 <= carry <= SQUARE && s == RangeSum(DiagTerm(v[..], m), 1, |m|)
    ensures forall j :: 1 <= j < |m| ==> dd[j] == v[j] * m[j]
    ensures md[..] == m && d[..] == old(d[..])
  {
    ghost var num := d[..];
    cs := [0];
    s := 0;
    EmptyColumn(v[..], m, 0);
    carry := ChooseDigit(v, md, mc, 0, d[0], num, v[..], m, cs);
    cs := cs + [carry];
    for k := 1 to md.Length
      invariant md[..] == m && d[..] == num && Reduced(v[..]) && Cleared(num, v[..], m, cs, k)
      invariant carry == cs[k] && 0 <= carry <= SQUARE && s == RangeSum(DiagTerm(v[..], m), 1, k)
      invariant forall j :: 1 <= j < k ==> dd[j] == v[j] * m[j]
    {
      ghost var w := v[..];
      var t := DoubleWord(d[k] + carry);
      var product;
      s, product, carry := ClearColumn(v, md, mc, k, s, t, num, w, m, cs);
      cs := cs + [carry];
      assert forall j :: 0 <= j < |m| && j != k ==> v[j] == v[..][j] == w[j];
      dd[k] := product;
    }
  }

  // ----- the upper loop

  lemma UpperColumn(w: seq<int>, m: seq<int>, f: int -> int, k: nat)
    requires |w| == |m| && |w| <= k < 2 * |w| - 1 && IsDiagonal(f, w, m)
    ensures Column(w, m, k) == RangeSum(f, k + 1 - |w|, |w|) + RangeSum(PairTerm(w, m, k), 1 + k / 2, |w|)
  {
    ColumnByPairs(w, m, k, |w| - 1);
    SumEqual(f, DiagTerm(w, m), k + 1 - |w|, |w|);
  }

  /** up are the upper columns, with the carry c into the first. */
  ghost predicate IsUpper(up: seq<int>, d: seq<int>, w: seq<int>, m: seq<int>, c: int) {
    |up| == |w| == |m| && |d| == 2 * |w|
    && forall k {:trigger Column(w, m, k)} :: |w| <= k < 2 * |w| ==>
         up[k - |w|] == d[k] + Column(w, m, k) + (if k == |w| then c else 0)
  }

  /** One limb of the result: t holds the limb of d and the carry. */
  method UpperLimb(v: array<int>, md: array<int>, b: array<int>, k: nat, s: int, t0: int, ghost carry: int,
                   ghost first: int,
                   ghost d: seq<int>, ghost w: seq<int>, ghost m: seq<int>, ghost f: int -> int, ghost up: seq<int>)
    returns (next: int)
    requires v[..] == w && md[..] == m && Reduced(w) && Reduced(m) && Reduced(d) && |w| <= MAX_LIMBS && b != v
             && b != md
    requires IsDiagonal(f, w, m) && IsUpper(up, d, w, m, first) && |w| <= k < 2 * |w| - 1
    requires s == RangeSum(f, k + 1 - |w|, |w|)
    requires t0 == d[k] + carry && 0 <= carry <= SQUARE && (k == |w| ==> carry == first)
    requires Emitted(b[..], up, k - |w|, if k == |w| then 0 else carry)
    modifies b
    ensures 0 <= next <= SQUARE && Emitted(b[..], up, k - |w| + 1, next)
  {
    ghost var b0 := b[..];
    UpperColumn(w, m, f, k);
    DiagonalSumBound(w, m, f, k + 1 - |w|, |w|);
    ColumnRange(w, m, k);
    assert IsLimb(d[k]);
    var t := DoubleWord(t0 + s);
    t := AddPairs(v, md, k, v.Length, t);
    EmitStep(b0, up, k - |w|, if k == |w| then 0 else carry, t);
    b[k - v.Length] := t % RADIX;
    next := t / RADIX;
    assert b[..] == b0[k - |w| := t % RADIX];
  }

  /** The upper loop: the result but for its top limb, and the carry into that. */
  method UpperLimbs(d: array<int>, v: array<int>, dd: array<int>, md: array<int>, b: array<int>, s0: int, first: int,
                    ghost num: seq<int>,
                    ghost w: seq<int>, ghost m: seq<int>, ghost f: int -> int, ghost up: seq<int>) returns (carry: int)
    requires d[..] == num && v[..] == w && md[..] == m && Reduced(w) && Reduced(m) && Reduced(num)
             && 2 <= |w| <= MAX_LIMBS
    requires dd.Length == |w| && b != v && b != md && b != d && b != dd
    requires IsDiagonal(f, w, m) && IsUpper(up, num, w, m, first) && Emitted(b[..], up, 0, 0)
    requires 0 <= first <= SQUARE && s0 == RangeSum(f, 1, |w|) && forall j :: 1 <= j < |w| ==> dd[j] == f(j)
    modifies b
    ensures 0 <= carry <= SQUARE && Emitted(b[..], up, |w| - 1, carry)
  {
    var n := v.Length;
    var s := s0;
    carry := first;
    for k := n to 2 * n - 1
      invariant d[..] == num && v[..] == w && md[..] == m
      invariant 0 <= carry <= SQUARE && (k == n ==> carry == first)
      invariant s == RangeSum(f, k + 1 - n, n)
      invariant Emitted(b[..], up, k - n, if k == n then 0 else carry)
    {
      var t := DoubleWord(d[k] + carry);
      carry := UpperLimb(v, md, b, k, s, t, carry, first, num, w, m, f, up);
      SumFront(f, k + 1 - n, n);
      DiagonalSumBound(w, m, f, k + 2 - n, n);
      s := DoubleWord(s - dd[k + 1 - n]);
    }
  }

  // ----- the result

  lemma {:induction false} ScaledOrder(x: int, y: int, n: nat)
    ensures Scaled(x, n) < Scaled(y, n) <==> x < y
  {
    if n > 0 {
      ScaledOrder(x, y, n - 1);
    }
  }

  lemma {:induction false} ScaledZero(n: nat)
    ensures Scaled(0, n) == 0
  {
    if n > 0 {
      ScaledZero(n - 1);
    }
  }

  /** The result is below twice the modulus. */
  lemma ResultBound(x: int, D: int, V: int, M: int, n: nat)
    requires n >= 1 && Scaled(x, n) == D + V * M && 0 <= D < Scaled(M, n) && 0 <= V < Scaled(RADIX, n - 1) && M > 0
    ensures 0 <= x < 2 * M
  {
    ScaledTwice(1, 1, n - 1);
    ScaledTimes(1, n, M);
    MulLess(V, Scaled(1, n), M);
    MulLess(0, V, M);
    ScaledDouble(M, n);
    ScaledOrder(x, 2 * M, n);
    ScaledZero(n);
    ScaledOrder(x, 0, n);
  }

  lemma NonZeroFactor(x: int, y: int)
    requires (x * y) % RADIX == RADIX - 1
    ensures y != 0
  {
  }

  /** A modulus with an inverse modulo the radix is positive. */
  lemma ModulusPositive(m: seq<int>, mc: int)
    requires Reduced(m) && (mc * m[0]) % RADIX == RADIX - 1
    ensures Value(m) > 0
  {
    ReducedIff(m);
    ValueFrom(m, 0);
    assert m[0..] == m;
    assert IsLimb(m[0]);
    NonZeroFactor(mc, m[0]);
  }

  /** What the last carry makes of the emitted limbs. */
  lemma MontyResult(d: seq<int>, w: seq<int>, m: seq<int>, cs: seq<int>, b: seq<int>, carry: int)
    requires |w| >= 2 && Reduced(d) && Reduced(w) && Reduced(m) && Cleared(d, w, m, cs, |w|) && Value(m) > 0
    requires Emitted(b, Upper(d, w, m, cs[|w|]), |w| - 1, carry)
    requires Value(m) <= Scaled(HALF, |w| - 1) && Value(d) < Scaled(Value(m), |w|)
    ensures IsLimb(d[2 * |w| - 1] + carry)
    ensures Reduced(b[|w| - 1 := d[2 * |w| - 1] + carry]) && Value(b[|w| - 1 := d[2 * |w| - 1] + carry]) < 2 * Value(m)
    ensures Scaled(Value(b[|w| - 1 := d[2 * |w| - 1] + carry]), |w|) == Value(d) + Value(w) * Value(m)
  {
    var n, up, M := |w|, Upper(d, w, m, cs[|w|]), Value(m);
    ColumnAbove(w, m);
    EmitLast(b, up, carry);
    var r := b[n - 1 := d[2 * n - 1] + carry];
    assert r == b[n - 1 := carry + up[n - 1]];
    UpperValue(d, w, m, cs);
    ReducedIff(d);
    ReducedIff(w);
    ResultBound(Value(r), Value(d), Value(w), M, n);
    Ranges(n - 1);
    ReducedIff(r);
    assert IsLimb(r[n - 1]);
  }

  lemma CongruentResult(x: int, D: int, V: int, M: int)
    requires x == D + V * M && M > 0
    ensures Residues.Cong(x, D, M)
  {
    Residues.ModShift(D, M, V);
  }

  lemma UpperIsUpper(d: seq<int>, w: seq<int>, m: seq<int>, carry: int)
    requires |w| == |m| >= 1 && |d| == 2 * |w|
    ensures IsUpper(Upper(d, w, m, carry), d, w, m, carry)
  {
  }

  /** The upper columns after the digits are chosen, up to the last carry. */
  method UpperPhase(d: array<int>, v: array<int>, dd: array<int>, md: array<int>, s: int, carry0: int,
                    ghost num: seq<int>,
                    ghost w: seq<int>, ghost m: seq<int>, ghost f: int -> int) returns (b: array<int>, carry: int)
    requires d[..] == num && v[..] == w && md[..] == m && Reduced(w) && Reduced(m) && Reduced(num)
             && 2 <= |w| <= MAX_LIMBS
    requires |m| == dd.Length == |w| && |num| == 2 * |w| && 0 <= carry0 <= SQUARE
    requires IsDiagonal(f, w, m) && s == RangeSum(f, 1, |w|) && forall j :: 1 <= j < |w| ==> dd[j] == f(j)
    ensures b.Length == |w| && fresh(b) && Emitted(b[..], Upper(num, w, m, carry0), |w| - 1, carry)
  {
    b := new int[md.Length](_ => 0);
    ghost var up := Upper(num, w, m, carry0);
    EmitStarts(b[..], up);
    UpperIsUpper(num, w, m, carry0);
    carry := UpperLimbs(d, v, dd, md, b, s, carry0, num, w, m, f, up);
  }

  /** The top limb. */
  method Top(b: array<int>, d: array<int>, carry: int)
    requires b.Length >= 1 && d.Length == 2 * b.Length && b != d && IsLimb(d[d.Length - 1] + carry)
    modifies b
    ensures b[..] == old(b[..])[b.Length - 1 := d[d.Length - 1] + carry]
  {
    var n := b.Length;
    var t := DoubleWord(d[2 * n - 1] + carry);
    b[n - 1] := t % RADIX;
  }

  lemma MontyMeaning(d: seq<int>, w: seq<int>, m: seq<int>, cs: seq<int>, b: seq<int>, carry: int, r: seq<int>)
    requires |w| >= 2 && Reduced(d) && Reduced(w) && Reduced(m) && Cleared(d, w, m, cs, |w|) && Value(m) > 0
    requires Emitted(b, Upper(d, w, m, cs[|w|]), |w| - 1, carry) && r == b[|w| - 1 := d[2 * |w| - 1] + carry]
    requires Value(m) <= Scaled(HALF, |w| - 1) && Value(d) < Scaled(Value(m), |w|)
    ensures IsLimb(d[2 * |w| - 1] + carry) && Reduced(r) && Value(r) < 2 * Value(m)
    ensures Residues.Cong(Scaled(Value(r), |w|), Value(d), Value(m))
  {
    MontyResult(d, w, m, cs, b, carry);
    CongruentResult(Scaled(Value(r), |w|), Value(d), Value(w), Value(m));
  }

  /** The result, once the digits are chosen. */
  method Finish(d: array<int>, v: array<int>, dd: array<int>, md: array<int>, s: int, carry0: int, ghost num: seq<int>,
                ghost w: seq<int>, ghost m: seq<int>, ghost cs: seq<int>, ghost f: int -> int) returns (b: array<int>)
    requires d[..] == num && v[..] == w && md[..] == m && Reduced(w) && Reduced(m) && Reduced(num)
             && 2 <= |w| <= MAX_LIMBS
    requires Cleared(num, w, m, cs, |w|) && dd.Length == |w| && carry0 == cs[|w|] && 0 <= carry0 <= SQUARE
    requires IsDiagonal(f, w, m) && s == RangeSum(f, 1, |w|) && forall j :: 1 <= j < |w| ==> dd[j] == f(j)
    requires 0 < Value(m) <= Scaled(HALF, |w| - 1) && Value(num) < Scaled(Value(m), |w|)
    ensures b.Length == |w| && fresh(b) && Reduced(b[..]) && Value(b[..]) < 2 * Value(m)
    ensures Residues.Cong(Scaled(Value(b[..]), |w|), Value(num), Value(m))
  {
    var carry;
    b, carry := UpperPhase(d, v, dd, md, s, carry0, num, w, m, f);
    Close(d, b, carry, num, w, m, cs);
  }

  method Close(d: array<int>, b: array<int>, carry: int, ghost num: seq<int>, ghost w: seq<int>, ghost m: seq<int>,
               ghost cs: seq<int>)
    requires d[..] == num && b != d && b.Length == |w| >= 2 && Reduced(w) && Reduced(m) && Reduced(num)
    requires Cleared(num, w, m, cs, |w|) && Emitted(b[..], Upper(num, w, m, cs[|w|]), |w| - 1, carry)
    requires 0 < Value(m) <= Scaled(HALF, |w| - 1) && Value(num) < Scaled(Value(m), |w|)
    modifies b
    ensures Reduced(b[..]) && Value(b[..]) < 2 * Value(m)
    ensures Residues.Cong(Scaled(Value(b[..]), |w|), Value(num), Value(m))
  {
    ghost var r := b[..][|w| - 1 := num[2 * |w| - 1] + carry];
    MontyMeaning(num, w, m, cs, b[..], carry, r);
    Top(b, d, carry);
  }

  /** `monty`: for a number below m.2^(58n) the result r is below 2m, and r.2^(58n) is congruent to
      the number modulo m. */
  method Monty(md: array<int>, mc: int, d: array<int>) returns (b: array<int>)
    requires 2 <= md.Length <= MAX_LIMBS && Reduced(md[..]) && (mc * md[0]) % RADIX == RADIX - 1
    requires Value(md[..]) <= Scaled(HALF, md.Length - 1)
    requires d.Length == 2 * md.Length && Reduced(d[..]) && Value(d[..]) < Scaled(Value(md[..]), md.Length)
    ensures b.Length == md.Length && fresh(b) && Reduced(b[..])
    ensures Value(md[..]) > 0 && Value(b[..]) < 2 * Value(md[..])
    ensures Residues.Cong(Scaled(Value(b[..]), md.Length), Value(d[..]), Value(md[..]))
  {
    var n := md.Length;
    ghost var m, num := md[..], d[..];
    ModulusPositive(m, mc);
    var dd := new int[n](_ => 0);
    var v := new int[n](_ => 0);
    var s, carry;
    ghost var cs;
    s, carry, cs := Lower(d, v, dd, md, mc, m);
    ghost var w := v[..];
    ghost var f := DiagTerm(w, m);
    forall j | 1 <= j < n ensures dd[j] == f(j) {
      assert v[j] == w[j];
    }
    b := Finish(d, v, dd, md, s, carry, num, w, m, cs, f);
  }
}
