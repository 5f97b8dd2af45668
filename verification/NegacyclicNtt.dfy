/** What the transform of `src/core/schemes/mcore/src/nhs.rs` is for: it evaluates a polynomial at the roots of
    x^1024 + 1, so that `poly_mul` on transforms followed by `intt` multiplies polynomials modulo x^1024 + 1. */
module NegacyclicNtt {
  import opened Digits
  import opened Residues
  import opened LazyNtt

  // ----- values of polynomials

  /** The value of coefficients, lowest first, at w. */
  lemma {:induction false} ValueAppend(w: int, a: seq<int>, b: seq<int>)
    ensures Value(w, a + b) == Value(w, a) + IntPow(w, |a|) * Value(w, b)
  {
    if a == [] {
      assert a + b == b;
    } else {
      var v := Value(w, b);
      ValueAppend(w, a[1..], b);
      assert (a + b)[1..] == a[1..] + b;
      AppendStep(w, Value(w, a[1..]), IntPow(w, |a| - 1), v);
    }
  }

  lemma AppendStep(w: int, x: int, p: int, v: int)
    ensures w * (x + p * v) == w * x + (w * p) * v
  {
  }

  /** A combination a + c.b, coefficient by coefficient and up to multiples of q, is the combination of the values. */
  ghost predicate Combines(r: seq<int>, a: seq<int>, c: int, b: seq<int>) {
    |r| == |a| == |b| && forall i :: 0 <= i < |r| ==> Cong(r[i], a[i] + c * b[i], Q)
  }

  lemma {:induction false} ValueCombines(w: int, r: seq<int>, a: seq<int>, c: int, b: seq<int>)
    requires Combines(r, a, c, b)
    ensures Cong(Value(w, r), Value(w, a) + c * Value(w, b), Q)
  {
    if r != [] {
      ValueCombines(w, r[1..], a[1..], c, b[1..]);
      CombineCong(w, r[0], a[0], b[0], c, Value(w, r[1..]), Value(w, a[1..]), Value(w, b[1..]));
    }
  }

  lemma CombineCong(w: int, r: int, a: int, b: int, c: int, z: int, x: int, y: int)
    requires Cong(r, a + c * b, Q) && Cong(z, x + c * y, Q)
    ensures Cong(r + w * z, (a + w * x) + c * (b + w * y), Q)
  {
    CongMul(w, w, z, x + c * y, Q);
    CongAdd(r, a + c * b, w * z, w * (x + c * y), Q);
    CombineStep(w, a, b, c, x, y);
  }

  lemma CombineStep(w: int, a: int, b: int, c: int, x: int, y: int)
    ensures (a + c * b) + w * (x + c * y) == (a + w * x) + c * (b + w * y)
  {
    assert w * (c * y) == c * (w * y);
  }

  lemma {:induction false} PowSum(w: int, a: nat, b: nat)
    ensures IntPow(w, a + b) == IntPow(w, a) * IntPow(w, b)
  {
    if a > 0 {
      PowSum(w, a - 1, b);
      assert w * (IntPow(w, a - 1) * IntPow(w, b)) == (w * IntPow(w, a - 1)) * IntPow(w, b);
    }
  }

  // ----- one level halves the degree

  lemma Entries(x: seq<int>, y: seq<int>, k: nat, t: nat, s: int, j: nat)
    requires ForwardWanted(x, y, k, t, s) && k <= j < k + t
    ensures Cong(y[j], x[j] + (s * WINV) * x[j + t], Q) && Cong(y[j + t], x[j] + -(s * WINV) * x[j + t], Q)
  {
    ForwardWants(x, y, k, t, s, j);
    ModCong(Plus(x, j, t, s), Q);
    ModCong(Minus(x, j, t, s), Q);
    Commute(x[j + t], s);
  }

  /** Where w^t is the root of the block, the lower half of the new block has the value of the old block. */
  lemma LowerHalf(x: seq<int>, y: seq<int>, k: nat, t: nat, s: int, w: int)
    requires ForwardWanted(x, y, k, t, s) && Cong(IntPow(w, t), s * WINV, Q)
    ensures Cong(Value(w, y[k..k + t]), Value(w, x[k..k + 2 * t]), Q)
  {
    var a, b, r := x[k..k + t], x[k + t..k + 2 * t], y[k..k + t];
    forall i | 0 <= i < t ensures Cong(r[i], a[i] + (s * WINV) * b[i], Q) {
      Entries(x, y, k, t, s, k + i);
    }
    HalfValue(x, r, k, t, s * WINV, w);
  }

  /** Where it is minus the root, so has the upper half. */
  lemma UpperHalf(x: seq<int>, y: seq<int>, k: nat, t: nat, s: int, w: int)
    requires ForwardWanted(x, y, k, t, s) && Cong(IntPow(w, t), -(s * WINV), Q)
    ensures Cong(Value(w, y[k + t..k + 2 * t]), Value(w, x[k..k + 2 * t]), Q)
  {
    var a, b, r := x[k..k + t], x[k + t..k + 2 * t], y[k + t..k + 2 * t];
    forall i | 0 <= i < t ensures Cong(r[i], a[i] + -(s * WINV) * b[i], Q) {
      Entries(x, y, k, t, s, k + i);
    }
    HalfValue(x, r, k, t, -(s * WINV), w);
  }

  /** A combination of the halves of a block, with the power of the point as its factor, has the value of the block. */
  lemma HalfValue(x: seq<int>, r: seq<int>, k: nat, t: nat, c: int, w: int)
    requires k + 2 * t <= |x| && Cong(IntPow(w, t), c, Q) && Combines(r, x[k..k + t], c, x[k + t..k + 2 * t])
    ensures Cong(Value(w, r), Value(w, x[k..k + 2 * t]), Q)
  {
    var a, b := x[k..k + t], x[k + t..k + 2 * t];
    ValueCombines(w, r, a, c, b);
    assert x[k..k + 2 * t] == a + b;
    ValueAppend(w, a, b);
    ScaledSum(IntPow(w, t), c, Value(w, a), Value(w, b));
  }

  lemma ScaledSum(p: int, c: int, x: int, y: int)
    requires Cong(p, c, Q)
    ensures Cong(x + p * y, x + c * y, Q)
  {
    CongScale(p, c, y, Q);
    CongAdd(x, x, p * y, c * y, Q);
  }

  lemma Commute(x: int, s: int)
    ensures x * s * WINV == (s * WINV) * x && -(s * WINV) * x == -(x * s * WINV)
  {
  }

  // ----- the roots

  /** The table of roots is a tree of square roots that starts at minus one: the roots of block k split it into two
      blocks, for the two square roots of the constant of k. */
  ghost predicate RootTree(roots: seq<int>) {
    && |roots| >= 2 && Cong(Square(roots[1] * WINV), -1, Q)
    && forall k :: 1 <= k < |roots| && 2 * k + 1 < |roots| ==> Splitting(roots[k], roots[2 * k], roots[2 * k + 1])
  }

  ghost predicate Splitting(s: int, left: int, right: int) {
    Cong(Square(left * WINV), s * WINV, Q) && Cong(Square(right * WINV), -(s * WINV), Q)
  }

  function Square(x: int): int {
    x * x
  }

  /** After l levels block i holds the polynomial modulo x^t - BlockRoot. */
  function BlockRoot(roots: seq<int>, l: nat, i: nat): int
    requires i < Pow2(l) && (l > 0 ==> Pow2(l) <= |roots|)
  {
    if l == 0 then -1
    else
      var c := roots[Pow2(l - 1) + i / 2] * WINV;
      if i % 2 == 0 then c else -c
  }

  lemma ParentRoot(roots: seq<int>, l: nat, i: nat)
    requires RootTree(roots) && l >= 1 && Pow2(l) <= |roots| && i < Pow2(l)
    ensures i / 2 < Pow2(l - 1) <= |roots| && Cong(Square(BlockRoot(roots, l, i)), BlockRoot(roots, l - 1, i / 2), Q)
  {
    var c := roots[Pow2(l - 1) + i / 2] * WINV;
    assert Square(-c) == Square(c);
    if l > 1 {
      var k := Pow2(l - 2) + i / 2 / 2;
      assert Pow2(l) == 2 * Pow2(l - 1) && Pow2(l - 1) == 2 * Pow2(l - 2);
      assert Splitting(roots[k], roots[2 * k], roots[2 * k + 1]);
      assert Pow2(l - 1) + i / 2 == if i / 2 % 2 == 0 then 2 * k else 2 * k + 1;
    }
  }

  lemma SquareRoot(w: int, t: nat, c: int, parent: int)
    requires Cong(IntPow(w, t), c, Q) && Cong(Square(c), parent, Q)
    ensures Cong(IntPow(w, 2 * t), parent, Q)
  {
    PowSum(w, t, t);
    CongMul(IntPow(w, t), c, IntPow(w, t), c, Q);
  }

  lemma ParentPoint(roots: seq<int>, l: nat, i: nat, w: int, t: nat)
    requires RootTree(roots) && l >= 1 && Pow2(l) <= |roots| && i < Pow2(l)
    requires Cong(IntPow(w, t), BlockRoot(roots, l, i), Q)
    ensures i / 2 < Pow2(l - 1) <= |roots| && Cong(IntPow(w, 2 * t), BlockRoot(roots, l - 1, i / 2), Q)
  {
    ParentRoot(roots, l, i);
    SquareRoot(w, t, BlockRoot(roots, l, i), BlockRoot(roots, l - 1, i / 2));
  }

  // ----- the transform evaluates

  /** The block of t entries from k is block i of its level. */
  ghost predicate BlockAt(lg: nat, l: nat, i: nat, t: nat, k: nat) {
    l <= lg && i < Pow2(l) && t == Pow2(lg - l) && k == t * i && k + t <= Pow2(lg)
  }

  lemma Blocks(lg: nat, l: nat, i: nat)
    requires l <= lg && i < Pow2(l)
    ensures 0 <= Pow2(lg - l) * i && BlockAt(lg, l, i, Pow2(lg - l), Pow2(lg - l) * i)
  {
    Pow2Add(lg - l, l);
    MulSteps(Pow2(lg - l), i, Pow2(l));
  }

  lemma ParentStart(t: nat, i: nat)
    ensures (2 * t) * (i / 2) == t * i - (if i % 2 == 0 then 0 else t)
  {
    var h := i / 2;
    assert i == 2 * h + i % 2;
    assert (2 * t) * h == t * (2 * h);
    if i % 2 == 1 {
      Distribute(t, 2 * h, 1);
    }
  }

  lemma WholeBlock(lg: nat, i: nat, t: nat, k: nat)
    requires BlockAt(lg, 0, i, t, k)
    ensures i == 0 && t == Pow2(lg) && k == 0
  {
  }

  /** The block that a block is split from. */
  lemma ParentBlock(lg: nat, l: nat, i: nat, t: nat, k: nat) returns (start: nat)
    requires l >= 1 && BlockAt(lg, l, i, t, k)
    ensures start == k - (if i % 2 == 0 then 0 else t) && BlockAt(lg, l - 1, i / 2, 2 * t, start)
  {
    assert Pow2(l) == 2 * Pow2(l - 1) && Pow2(lg - (l - 1)) == 2 * t;
    ParentStart(t, i);
    Blocks(lg, l - 1, i / 2);
    start := (2 * t) * (i / 2);
  }

  /** After l levels, a block has the value of the whole polynomial at every point whose power is the root of the
      block; and such a point is a root of x^n + 1. */
  lemma {:induction false} BlockEvaluates(x: seq<int>, roots: seq<int>, lg: nat, l: nat, i: nat, t: nat, k: nat, w: int)
    requires |x| == Pow2(lg) == |roots| && RootTree(roots) && BlockAt(lg, l, i, t, k)
    requires Pow2(l) <= |roots| && Cong(IntPow(w, t), BlockRoot(roots, l, i), Q)
    ensures Cong(Value(w, Upto(x, roots, lg, l)[k..k + t]), Value(w, x), Q)
    ensures Cong(IntPow(w, Pow2(lg)), -1, Q)
    decreases l
  {
    if l == 0 {
      WholeBlock(lg, i, t, k);
      assert x[0..|x|] == x;
    } else {
      var start := ParentBlock(lg, l, i, t, k);
      ParentPoint(roots, l, i, w, t);
      BlockEvaluates(x, roots, lg, l - 1, i / 2, 2 * t, start, w);
      BlockSplits(x, roots, lg, l, i, t, k, w, start);
    }
  }

  /** One level: the block has the value of the block it is split from. */
  lemma BlockSplits(x: seq<int>, roots: seq<int>, lg: nat, l: nat, i: nat, t: nat, k: nat, w: int, start: nat)
    requires |x| == Pow2(lg) == |roots| && 1 <= l && BlockAt(lg, l, i, t, k) && BlockAt(lg, l - 1, i / 2, 2 * t, start)
    requires start == k - (if i % 2 == 0 then 0 else t)
    requires Pow2(l) <= |roots| && Cong(IntPow(w, t), BlockRoot(roots, l, i), Q)
    ensures Cong(Value(w, Upto(x, roots, lg, l)[k..k + t]),
                 Value(w, Upto(x, roots, lg, l - 1)[start..start + 2 * t]), Q)
  {
    var before, after := Upto(x, roots, lg, l - 1), Upto(x, roots, lg, l);
    LevelShape(lg, l - 1);
    assert after == Forward(before, roots, Pow2(l - 1), t);
    HalfEvaluates(before, roots, Pow2(l - 1), t, i, start, k, w, BlockRoot(roots, l, i));
  }

  lemma HalfEvaluates(x: seq<int>, roots: seq<int>, m: nat, t: nat, i: nat, start: nat, k: nat, w: int, c: int)
    requires Level(|x|, m, t) && 2 * m <= |roots| && i / 2 < m && start == 2 * t * (i / 2) && start + 2 * t <= |x|
    requires k == start + (if i % 2 == 0 then 0 else t) && Cong(IntPow(w, t), c, Q)
    requires c == if i % 2 == 0 then roots[m + i / 2] * WINV else -(roots[m + i / 2] * WINV)
    ensures Cong(Value(w, Forward(x, roots, m, t)[k..k + t]), Value(w, x[start..start + 2 * t]), Q)
  {
    var s, y := roots[m + i / 2], Forward(x, roots, m, t);
    ForwardLevelWants(x, roots, m, t, i / 2, start, s);
    if i % 2 == 0 {
      LowerHalf(x, y, start, t, s, w);
    } else {
      UpperHalf(x, y, start, t, s, w);
    }
  }

  /** The point at which entry j of the transform is the value. */
  function Point(roots: seq<int>, lg: nat, j: nat): int
    requires j < Pow2(lg) == |roots|
  {
    BlockRoot(roots, lg, j)
  }

  /** The points are roots of x^n + 1. */
  lemma PointIsRoot(roots: seq<int>, lg: nat, j: nat)
    requires j < Pow2(lg) == |roots| && RootTree(roots)
    ensures Cong(IntPow(Point(roots, lg, j), Pow2(lg)), -1, Q)
  {
    var w := Point(roots, lg, j);
    Blocks(lg, lg, j);
    assert IntPow(w, 1) == w * IntPow(w, 0) == w;
    BlockEvaluates(roots, roots, lg, lg, j, 1, j, w);
  }

  lemma {:induction false} ValueTimes(w: int, c: int, x: seq<int>)
    ensures Cong(Value(w, Times(c, x)), c * Value(w, x), Q)
  {
    if x != [] {
      assert Times(c, x)[1..] == Times(c, x[1..]);
      ValueTimes(w, c, x[1..]);
      var v := Value(w, x[1..]);
      ModCong(c * x[0], Q);
      CongMul(w, w, Value(w, Times(c, x[1..])), c * v, Q);
      CongAdd((c * x[0]) % Q, c * x[0], w * Value(w, Times(c, x[1..])), w * (c * v), Q);
      TimesStep(w, c, x[0], v);
    }
  }

  lemma TimesStep(w: int, c: int, x: int, v: int)
    ensures c * x + w * (c * v) == c * (x + w * v)
  {
    assert w * (c * v) == c * (w * v);
  }

  /** Entry j of `ntt` is the value of the polynomial at its point, in Montgomery form. */
  lemma NttEvaluates(x: seq<int>, roots: seq<int>, lg: nat, j: nat)
    requires j < Pow2(lg) == |roots| == |x| && RootTree(roots)
    ensures Cong(Ntt(x, roots, lg)[j], W * Value(Point(roots, lg, j), x), Q)
  {
    var w, X := Point(roots, lg, j), Times(W, x);
    Blocks(lg, lg, j);
    assert IntPow(w, 1) == w * IntPow(w, 0) == w;
    BlockEvaluates(X, roots, lg, lg, j, 1, j, w);
    var y := Upto(X, roots, lg, lg);
    assert y[j..j + 1] == [y[j]];
    assert Value(w, [y[j]]) == y[j];
    ValueTimes(w, W, x);
  }

  // ----- products modulo x^n + 1

  /** Coefficient k of x^i times b, modulo x^n + 1: what leaves at the top comes back negated. */
  function Turned(b: seq<int>, i: nat, k: nat): int
    requires i < |b| && k < |b|
  {
    if i <= k then b[k - i] else -b[|b| + k - i]
  }

  /** Coefficient k of the product of the first p terms of a with b: the products a[i] * b[j] with i + j == k, less
      those with i + j == n + k. */
  function ProductAt(a: seq<int>, b: seq<int>, p: nat, k: nat): int
    requires |a| == |b| && p <= |a| && k < |b|
  {
    if p == 0 then 0 else ProductAt(a, b, p - 1, k) + a[p - 1] * Turned(b, p - 1, k)
  }

  function Partial(a: seq<int>, b: seq<int>, p: nat): (c: seq<int>)
    requires |a| == |b| && p <= |a|
    ensures |c| == |a| && forall k :: 0 <= k < |a| ==> c[k] == ProductAt(a, b, p, k)
  {
    seq(|a|, k requires 0 <= k < |a| => ProductAt(a, b, p, k))
  }

  /** The product of two polynomials modulo x^n + 1, with integer coefficients. */
  function Negacyclic(a: seq<int>, b: seq<int>): (c: seq<int>)
    requires |a| == |b|
    ensures |c| == |a|
  {
    Partial(a, b, |a|)
  }

  ghost function Turn(b: seq<int>, i: nat): (c: seq<int>)
    requires i < |b|
    ensures |c| == |b| && forall k :: 0 <= k < |b| ==> c[k] == Turned(b, i, k)
  {
    seq(|b|, k requires 0 <= k < |b| => Turned(b, i, k))
  }

  /** A turn multiplies the value by the point, if that is a root of x^n + 1. */
  lemma TurnOnce(w: int, c: seq<int>, d: seq<int>)
    requires |c| == |d| >= 1 && d[0] == -c[|c| - 1] && (forall k :: 1 <= k < |d| ==> d[k] == c[k - 1])
    requires Cong(IntPow(w, |c|), -1, Q)
    ensures Cong(Value(w, d), w * Value(w, c), Q)
  {
    var n := |c|;
    var low, top := c[..n - 1], c[n - 1];
    assert d == [-top] + low && c == low + [top];
    ValueCons(w, -top, low);
    ValueAppend(w, low, [top]);
    assert Value(w, [top]) == top;
    AppendStep(w, Value(w, low), IntPow(w, n - 1), top);
    ScaledSum(IntPow(w, n), -1, w * Value(w, low), top);
  }

  lemma {:induction false} TurnValue(w: int, b: seq<int>, i: nat)
    requires i < |b| && Cong(IntPow(w, |b|), -1, Q)
    ensures Cong(Value(w, Turn(b, i)), IntPow(w, i) * Value(w, b), Q)
  {
    if i == 0 {
      assert Turn(b, 0) == b;
    } else {
      var v := Value(w, b);
      TurnValue(w, b, i - 1);
      TurnOnce(w, Turn(b, i - 1), Turn(b, i));
      CongMul(w, w, Value(w, Turn(b, i - 1)), IntPow(w, i - 1) * v, Q);
      assert w * (IntPow(w, i - 1) * v) == (w * IntPow(w, i - 1)) * v;
    }
  }

  lemma {:induction false} PartialValue(w: int, a: seq<int>, b: seq<int>, p: nat)
    requires |a| == |b| && p <= |a| && Cong(IntPow(w, |b|), -1, Q)
    ensures Cong(Value(w, Partial(a, b, p)), Value(w, a[..p]) * Value(w, b), Q)
  {
    if p == 0 {
      ZeroValue(w, Partial(a, b, 0));
    } else {
      PartialValue(w, a, b, p - 1);
      TurnValue(w, b, p - 1);
      OneMoreTerm(w, Partial(a, b, p), Partial(a, b, p - 1), Turn(b, p - 1), a[..p - 1], a[p - 1], Value(w, b));
      assert a[..p] == a[..p - 1] + [a[p - 1]];
    }
  }

  /** One more term of a adds a turned b. */
  lemma OneMoreTerm(w: int, next: seq<int>, sum: seq<int>, turned: seq<int>, a: seq<int>, c: int, v: int)
    requires Combines(next, sum, c, turned)
    requires Cong(Value(w, sum), Value(w, a) * v, Q) && Cong(Value(w, turned), IntPow(w, |a|) * v, Q)
    ensures Cong(Value(w, next), Value(w, a + [c]) * v, Q)
  {
    ValueCombines(w, next, sum, c, turned);
    TermStep(Value(w, next), Value(w, sum), Value(w, turned), Value(w, a), IntPow(w, |a|), c, v);
    ValueAppend(w, a, [c]);
    assert Value(w, [c]) == c;
  }

  lemma TermStep(next: int, sum: int, turned: int, x: int, p: int, c: int, v: int)
    requires Cong(next, sum + c * turned, Q) && Cong(sum, x * v, Q) && Cong(turned, p * v, Q)
    ensures Cong(next, (x + p * c) * v, Q)
  {
    CongMul(c, c, turned, p * v, Q);
    CongAdd(sum, x * v, c * turned, c * (p * v), Q);
    ProductStep(x, p, c, v);
  }

  lemma ProductStep(x: int, p: int, c: int, v: int)
    ensures x * v + c * (p * v) == (x + p * c) * v
  {
  }

  lemma {:induction false} ZeroValue(w: int, z: seq<int>)
    requires forall i :: 0 <= i < |z| ==> z[i] == 0
    ensures Value(w, z) == 0
  {
    if z != [] {
      ZeroValue(w, z[1..]);
    }
  }

  /** At a root of x^n + 1 the product has the product of the values. */
  lemma NegacyclicValue(w: int, a: seq<int>, b: seq<int>)
    requires |a| == |b| && Cong(IntPow(w, |b|), -1, Q)
    ensures Cong(Value(w, Negacyclic(a, b)), Value(w, a) * Value(w, b), Q)
  {
    assert a[..|a|] == a;
    PartialValue(w, a, b, |a|);
  }

  // ----- multiplication through the transform

  /** What `poly_mul` computes at one entry. */
  ghost predicate Multiplied(z: int, x: int, y: int) {
    Cong(z, x * y * WINV, Q)
  }

  lemma MontgomeryProduct(z: int, x: int, y: int, u: int, v: int)
    requires Multiplied(z, x, y) && Cong(x, W * u, Q) && Cong(y, W * v, Q)
    ensures Cong(z, W * (u * v), Q)
  {
    CongMul(x, W * u, y, W * v, Q);
    CongScale(x * y, (W * u) * (W * v), WINV, Q);
    WordsCancel(u, v);
  }

  lemma WordsCancel(u: int, v: int)
    ensures Cong((W * u) * (W * v) * WINV, W * (u * v), Q)
  {
    var k := 4143984639;
    assert W * WINV == 1 + Q * k;
    assert (W * u) * (W * v) == W * W * (u * v);
    assert W * W * (u * v) * WINV == W * (u * v) + Q * (k * W * (u * v));
    CongFrom((W * u) * (W * v) * WINV, W * (u * v), Q, k * W * (u * v));
  }

  /** The entrywise product of two transforms is the transform of the product modulo x^n + 1. */
  lemma TransformOfProduct(a: seq<int>, b: seq<int>, x: seq<int>, y: seq<int>, z: seq<int>, roots: seq<int>, lg: nat)
    requires |a| == |b| == |z| == Pow2(lg) == |roots| && RootTree(roots)
    requires SameResidues(x, Ntt(a, roots, lg)) && SameResidues(y, Ntt(b, roots, lg))
    requires forall j :: 0 <= j < |z| ==> Multiplied(z[j], x[j], y[j])
    ensures SameResidues(z, Ntt(Negacyclic(a, b), roots, lg))
  {
    var c := Negacyclic(a, b);
    forall j | 0 <= j < |z| ensures (z[j] - Ntt(c, roots, lg)[j]) % Q == 0 {
      var w := Point(roots, lg, j);
      PointIsRoot(roots, lg, j);
      NegacyclicValue(w, a, b);
      NttEvaluates(a, roots, lg, j);
      NttEvaluates(b, roots, lg, j);
      NttEvaluates(c, roots, lg, j);
      assert (x[j] - Ntt(a, roots, lg)[j]) % Q == 0 && (y[j] - Ntt(b, roots, lg)[j]) % Q == 0;
      ResidueCong(x[j], Ntt(a, roots, lg)[j]);
      ResidueCong(y[j], Ntt(b, roots, lg)[j]);
      MontgomeryProduct(z[j], x[j], y[j], Value(w, a), Value(w, b));
      CongMul(W, W, Value(w, c), Value(w, a) * Value(w, b), Q);
      CongResidue(z[j], Ntt(c, roots, lg)[j]);
    }
  }

  lemma ResidueCong(a: int, b: int)
    requires (a - b) % Q == 0
    ensures Cong(a, b, Q)
  {
  }

  lemma CongResidue(a: int, b: int)
    requires Cong(a, b, Q)
    ensures (a - b) % Q == 0
  {
  }

  /** The inverse transform of it is the product modulo x^n + 1 and modulo q. */
  lemma TransformsMultiply(a: seq<int>, b: seq<int>, x: seq<int>, y: seq<int>, z: seq<int>,
                           roots: seq<int>, iroots: seq<int>, lg: nat)
    requires lg == 10 && |a| == |b| == |z| == Pow2(lg) == |roots| && RootTree(roots) && InverseRoots(roots, iroots)
    requires SameResidues(x, Ntt(a, roots, lg)) && SameResidues(y, Ntt(b, roots, lg))
    requires forall j :: 0 <= j < |z| ==> Multiplied(z[j], x[j], y[j])
    ensures Intt(z, iroots, lg) == Times(1, Negacyclic(a, b))
  {
    TransformOfProduct(a, b, x, y, z, roots, lg);
    TransformsInvert(Negacyclic(a, b), z, roots, iroots, lg);
  }

  /** `modmul` of two lazy values. */
  function LazyProduct(a: int, b: int): (v: int)
    requires 0 <= a <= 22 * Q && 0 <= b <= 22 * Q
    ensures 0 <= v < 2 * Q && Multiplied(v, a, b)
  {
    LazyBound(a, b);
    ResidueCong(Redc(a * b), a * b * WINV);
    Redc(U64(a * b))
  }

  lemma LazyBound(a: int, b: int)
    requires 0 <= a <= 22 * Q && 0 <= b <= 22 * Q
    ensures 0 <= a * b <= 484 * Q * Q
  {
    assert a * b <= (22 * Q) * b <= (22 * Q) * (22 * Q);
  }

  /** `poly_mul`. */
  method PolyMul(p1: array<int>, p3: array<int>)
    requires p1.Length == p3.Length && p1 != p3 && Bounded(p1[..], 22 * Q) && Bounded(p3[..], 22 * Q)
    modifies p1
    ensures Bounded(p1[..], 2 * Q) && forall j :: 0 <= j < p1.Length ==> Multiplied(p1[j], old(p1[j]), p3[j])
  {
    ghost var x, y := p1[..], p3[..];
    for j := 0 to p1.Length
      invariant p3[..] == y && forall i :: j <= i < p1.Length ==> p1[i] == x[i]
      invariant forall i :: 0 <= i < j ==> 0 <= p1[i] <= 2 * Q && Multiplied(p1[i], x[i], y[i])
    {
      assert p1[j] == x[j] && p3[j] == y[j];
      p1[j] := LazyProduct(p1[j], p3[j]);
    }
  }

  /** `ntt` of both factors, `poly_mul` and `intt`: the product modulo x^1024 + 1, in normal form. */
  method Multiply(a: array<int>, b: array<int>, roots: seq<int>, iroots: seq<int>)
    requires a != b && a.Length == b.Length == |roots| == DEGREE && RootTable(roots) && RootTable(iroots)
    requires RootTree(roots) && InverseRoots(roots, iroots) && LastRoot(iroots)
    requires Bounded(a[..], 2 * Q) && Bounded(b[..], 2 * Q)
    modifies a, b
    ensures forall k :: 0 <= k < DEGREE ==> a[k] == Negacyclic(old(a[..]), old(b[..]))[k] % Q
  {
    ghost var a0, b0 := a[..], b[..];
    ghost var lg: nat := 10;
    DegreeIs(lg);
    NttInPlace(a, roots, lg);
    NttInPlace(b, roots, lg);
    ghost var x, y := a[..], b[..];
    PolyMul(a, b);
    ghost var z := a[..];
    TransformsMultiply(a0, b0, x, y, z, roots, iroots, lg);
    InttInPlace(a, iroots, lg);
  }
}
