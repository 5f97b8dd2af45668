/** The number-theoretic transform with lazy reduction of `src/core/schemes/mcore/src/nhs.rs`:
    values grow between reductions, and the proof shows how far, that nothing leaves its machine
    word, and that the lazy transforms compute the exact ones modulo q and invert each other.

    The tables of roots are parameters, with what the proofs need of them as named hypotheses. */
module LazyNtt {
  import opened Digits
  import Residues

  const Q: int := 0x3001
  const ND: int := 0xF700_2FFF
  const ONE: int := 0x2AC8
  const R2MODP: int := 0x1620
  const INV: int := 0xeab
  const INVPR: int := 0x2c2a

  /** 2^32, and its inverse modulo q. */
  const W: int := 0x1_0000_0000
  const WINV: int := 11857

  /** A signed 32-bit word: the precondition is the absence of overflow. */
  function I32(x: int): int
    requires -0x8000_0000 <= x < 0x8000_0000
  {
    x
  }

  /** An unsigned 64-bit word, likewise. */
  function U64(x: int): int
    requires 0 <= x < 0x1_0000_0000_0000_0000
  {
    x
  }

  // ----- Montgomery arithmetic

  lemma RedcExact(t: int)
    ensures ((((t % W) * ND) % W) * Q + t) % W == 0
  {
    var low, high := t % W, t / W;
    var a, m := (low * ND) / W, (low * ND) % W;
    assert ND * Q == 11857 * W - 1;
    assert m * Q + t == W * (11857 * low - a * Q + high);
    MultipleOfWord(11857 * low - a * Q + high);
  }

  lemma MultipleOfWord(k: int)
    ensures (W * k) % W == 0
  {
  }

  lemma RedcResidue(t: int, m: int, r: int)
    requires r * W == m * Q + t
    ensures (r - t * WINV) % Q == 0
  {
    assert W * WINV == 1 + 4143984639 * Q;
    assert r - t * WINV == Q * (m * WINV - 4143984639 * r);
  }

  /** `redc`: the sum is a multiple of 2^32, so the result times 2^32 is congruent to the argument. */
  function Redc(t: int): (r: int)
    requires 0 <= t < 0x4000_0000_0000
    ensures 0 <= r && r * W <= t + (W - 1) * Q && (r - t * WINV) % Q == 0
  {
    var m := ((t % W) * ND) % W;
    RedcExact(t);
    RedcResidue(t, m, (m * Q + t) / W);
    I32(U64(m * Q + t) / W)
  }

  lemma ProductBound(a: int, b: int, c: int)
    requires 0 <= a <= c && 0 <= b < Q
    ensures 0 <= a * b <= c * Q
  {
    assert a * b <= c * b <= c * Q;
  }

  /** `modmul`, and the exact product it stands for. */
  function ModMul(a: int, s: int): (v: int)
    requires 0 <= a <= 2048 * Q && 0 <= s < Q
    ensures 0 <= v < 2 * Q && (v - a * s * WINV) % Q == 0
    ensures a <= 22 * Q ==> v <= Q
  {
    ProductBound(a, s, 2048 * Q);
    if a <= 22 * Q then ProductBound(a, s, 22 * Q); Redc(a * s) else Redc(a * s)
  }

  // ----- the exact transform

  /** Block and position of index j in blocks of 2t. */
  function Block(t: nat, j: nat): (i: int)
    requires t >= 1
    ensures i >= 0
  {
    BlockNotNegative(j, 2 * t);
    j / (2 * t)
  }

  lemma BlockNotNegative(j: nat, d: nat)
    requires d >= 1
    ensures j / d >= 0
  {
    var i := j / d;
    assert j == d * i + j % d;
    Residues.MulBounds(d, i);
  }

  predicate Lower(t: nat, j: nat)
    requires t >= 1
  {
    j % (2 * t) < t
  }

  /** The geometry of a level: m blocks of 2t. */
  predicate Level(n: nat, m: nat, t: nat) {
    m >= 1 && t >= 1 && n == 2 * t * m
  }

  lemma BlockOf(t: nat, i: nat, j: nat, p: nat)
    requires t >= 1 && j == 2 * t * i + p && p < 2 * t
    ensures Block(t, j) == i && (Lower(t, j) <==> p < t)
  {
    Residues.DivModUnique(j, 2 * t, i, p);
  }

  /** Where index j lies, and its partner in the butterfly. */
  lemma Partner(n: nat, m: nat, t: nat, j: nat)
    requires Level(n, m, t) && j < n
    ensures Block(t, j) < m
    ensures Lower(t, j) ==> j + t < n && Block(t, j + t) == Block(t, j) && !Lower(t, j + t)
    ensures !Lower(t, j) ==> j >= t && Block(t, j - t) == Block(t, j) && Lower(t, j - t)
  {
    var i, p := Block(t, j), j % (2 * t);
    assert j == 2 * t * i + p;
    BlockBelow(t, i, p, m);
    if p < t {
      BlockOf(t, i, j + t, p + t);
    } else {
      assert 2 * t * i >= 0;
      BlockOf(t, i, j - t, p - t);
    }
  }

  lemma BlockBelow(t: nat, i: nat, p: nat, m: nat)
    requires t >= 1 && 2 * t * i + p < 2 * t * m && p < 2 * t
    ensures i < m && 2 * t * i + 2 * t <= 2 * t * m
  {
    var d := m - i;
    assert 2 * t * m - 2 * t * i == 2 * t * d;
    Residues.MulBounds(2 * t, d);
  }

  /** One entry of the forward level, reduced. */
  function ForwardAt(x: seq<int>, roots: seq<int>, m: nat, t: nat, j: nat): int
    requires Level(|x|, m, t) && 2 * m <= |roots| && j < |x|
  {
    Partner(|x|, m, t, j);
    var s := roots[m + Block(t, j)];
    if Lower(t, j) then (x[j] + x[j + t] * s * WINV) % Q else (x[j - t] - x[j] * s * WINV) % Q
  }

  /** One entry of the inverse level, reduced. */
  function InverseAt(x: seq<int>, roots: seq<int>, m: nat, t: nat, j: nat): int
    requires Level(|x|, m, t) && 2 * m <= |roots| && j < |x|
  {
    Partner(|x|, m, t, j);
    var s := roots[m + Block(t, j)];
    if Lower(t, j) then (x[j] + x[j + t]) % Q else ((x[j - t] - x[j]) * s * WINV) % Q
  }

  function Forward(x: seq<int>, roots: seq<int>, m: nat, t: nat): (y: seq<int>)
    requires Level(|x|, m, t) && 2 * m <= |roots|
    ensures |y| == |x|
  {
    seq(|x|, j requires 0 <= j < |x| => ForwardAt(x, roots, m, t, j))
  }

  function Inverse(x: seq<int>, roots: seq<int>, m: nat, t: nat): (y: seq<int>)
    requires Level(|x|, m, t) && 2 * m <= |roots|
    ensures |y| == |x|
  {
    seq(|x|, j requires 0 <= j < |x| => InverseAt(x, roots, m, t, j))
  }

  function Times(c: int, x: seq<int>): (y: seq<int>)
    ensures |y| == |x|
  {
    seq(|x|, j requires 0 <= j < |x| => (c * x[j]) % Q)
  }

  // ----- the inverse level undoes the forward level, up to a factor of two

  /** The tables hold inverse roots, both in Montgomery form. */
  ghost predicate InverseRoots(roots: seq<int>, iroots: seq<int>) {
    |roots| == |iroots| && forall k :: 0 <= k < |roots| ==> (roots[k] * iroots[k] - W * W) % Q == 0
  }

  lemma CancelRoots(x: int, s: int, r: int, d: int)
    requires (s * r - W * W) % Q == 0 && (d - 2 * (x * s * WINV)) % Q == 0
    ensures (d * r * WINV) % Q == (2 * x) % Q
  {
    var k := (s * r - W * W) / Q;
    var h := (d - 2 * (x * s * WINV)) / Q;
    assert s * r == W * W + Q * k && d == 2 * (x * s * WINV) + Q * h;
    CancelIdentity(x, s, r, d, k, h);
    var e := W * W * WINV * WINV;
    assert e == 1 + Q * (e / Q);
    Residues.ModShift(2 * x, Q, 2 * x * (e / Q) + 2 * x * k * WINV * WINV + h * r * WINV);
    assert 2 * x * e == 2 * x + Q * (2 * x * (e / Q));
  }

  lemma CancelIdentity(x: int, s: int, r: int, d: int, k: int, h: int)
    requires s * r == W * W + Q * k && d == 2 * (x * s * WINV) + Q * h
    ensures d * r * WINV == 2 * x * (W * W * WINV * WINV) + Q * (2 * x * k * WINV * WINV + h * r * WINV)
  {
    assert d * r == 2 * WINV * (x * (s * r)) + Q * (h * r);
    assert x * (W * W + Q * k) == W * W * x + Q * (x * k);
  }

  lemma SumResidue(a: int, b: int)
    ensures (a % Q + b % Q) % Q == (a + b) % Q
  {
  }

  /** Lower entries: (u + v) + (u - v). */
  lemma UndoLower(x: seq<int>, roots: seq<int>, iroots: seq<int>, m: nat, t: nat, j: nat)
    requires Level(|x|, m, t) && 2 * m <= |roots| && 2 * m <= |iroots| && j < |x| && Lower(t, j)
    ensures InverseAt(Forward(x, roots, m, t), iroots, m, t, j) == (2 * x[j]) % Q
  {
    Partner(|x|, m, t, j);
    var y, v := Forward(x, roots, m, t), x[j + t] * roots[m + Block(t, j)] * WINV;
    assert y[j] == (x[j] + v) % Q && y[j + t] == (x[j] - v) % Q;
    SumResidue(x[j] + v, x[j] - v);
  }

  /** Upper entries: ((u + v) - (u - v)) times the inverse root. */
  lemma UndoUpper(x: seq<int>, roots: seq<int>, iroots: seq<int>, m: nat, t: nat, j: nat)
    requires Level(|x|, m, t) && 2 * m <= |roots| && InverseRoots(roots, iroots) && j < |x| && !Lower(t, j)
    ensures InverseAt(Forward(x, roots, m, t), iroots, m, t, j) == (2 * x[j]) % Q
  {
    Partner(|x|, m, t, j);
    var k := m + Block(t, j);
    var y, v := Forward(x, roots, m, t), x[j] * roots[k] * WINV;
    assert y[j - t] == (x[j - t] + v) % Q && y[j] == (x[j - t] - v) % Q;
    DifferenceOf(x[j - t], v, y[j - t], y[j]);
    CancelRoots(x[j], roots[k], iroots[k], y[j - t] - y[j]);
  }

  lemma DifferenceOf(u: int, v: int, a: int, b: int)
    requires a == (u + v) % Q && b == (u - v) % Q
    ensures (a - b - 2 * v) % Q == 0
  {
  }

  /** The inverse level after the forward level doubles every entry, modulo q. */
  lemma InverseUndoes(x: seq<int>, roots: seq<int>, iroots: seq<int>, m: nat, t: nat)
    requires Level(|x|, m, t) && 2 * m <= |roots| && InverseRoots(roots, iroots)
    ensures Inverse(Forward(x, roots, m, t), iroots, m, t) == Times(2, x)
  {
    forall j | 0 <= j < |x| ensures InverseAt(Forward(x, roots, m, t), iroots, m, t, j) == (2 * x[j]) % Q {
      if Lower(t, j) {
        UndoLower(x, roots, iroots, m, t, j);
      } else {
        UndoUpper(x, roots, iroots, m, t, j);
      }
    }
  }

  // ----- the levels depend on residues only, and the inverse level is linear

  ghost predicate SameResidues(x: seq<int>, y: seq<int>) {
    |x| == |y| && forall j :: 0 <= j < |x| ==> (x[j] - y[j]) % Q == 0
  }

  lemma ScaleResidue(a: int, b: int, s: int)
    requires (a - b) % Q == 0
    ensures (a * s * WINV - b * s * WINV) % Q == 0
  {
    var k := (a - b) / Q;
    assert a == b + Q * k;
    assert (b + Q * k) * s == b * s + Q * (k * s);
    assert a * s * WINV - b * s * WINV == Q * (k * s * WINV);
    MultipleOfQ(k * s * WINV);
  }

  lemma MultipleOfQ(k: int)
    ensures (Q * k) % Q == 0
  {
  }

  lemma ForwardResidues(x: seq<int>, y: seq<int>, roots: seq<int>, m: nat, t: nat)
    requires SameResidues(x, y) && Level(|x|, m, t) && 2 * m <= |roots|
    ensures Forward(x, roots, m, t) == Forward(y, roots, m, t)
  {
    forall j | 0 <= j < |x| ensures ForwardAt(x, roots, m, t, j) == ForwardAt(y, roots, m, t, j) {
      Partner(|x|, m, t, j);
      var s := roots[m + Block(t, j)];
      if Lower(t, j) {
        ScaleResidue(x[j + t], y[j + t], s);
        DifferenceResidue(x[j], x[j + t] * s * WINV, y[j], y[j + t] * s * WINV);
      } else {
        ScaleResidue(x[j], y[j], s);
        DifferenceResidue(x[j - t], x[j] * s * WINV, y[j - t], y[j] * s * WINV);
        EqualResidue(x[j - t] - x[j] * s * WINV, y[j - t] - y[j] * s * WINV);
      }
    }
  }

  lemma DifferenceResidue(a: int, b: int, c: int, d: int)
    requires (a - c) % Q == 0 && (b - d) % Q == 0
    ensures ((a - b) - (c - d)) % Q == 0 && (a + b) % Q == (c + d) % Q
  {
  }

  lemma EqualResidue(a: int, b: int)
    requires (a - b) % Q == 0
    ensures a % Q == b % Q
  {
  }

  lemma InverseResidues(x: seq<int>, y: seq<int>, roots: seq<int>, m: nat, t: nat)
    requires SameResidues(x, y) && Level(|x|, m, t) && 2 * m <= |roots|
    ensures Inverse(x, roots, m, t) == Inverse(y, roots, m, t)
  {
    forall j | 0 <= j < |x| ensures InverseAt(x, roots, m, t, j) == InverseAt(y, roots, m, t, j) {
      Partner(|x|, m, t, j);
      var s := roots[m + Block(t, j)];
      if Lower(t, j) {
        DifferenceResidue(x[j], x[j + t], y[j], y[j + t]);
      } else {
        DifferenceResidue(x[j - t], x[j], y[j - t], y[j]);
        ScaleResidue(x[j - t] - x[j], y[j - t] - y[j], s);
        EqualResidue((x[j - t] - x[j]) * s * WINV, (y[j - t] - y[j]) * s * WINV);
      }
    }
  }

  lemma ScaledResidue(c: int, v: int)
    ensures (c * (v % Q)) % Q == (c * v) % Q
  {
    Residues.ModCong(v, Q);
    Residues.CongScale(v % Q, v, c, Q);
    assert (v % Q) * c == c * (v % Q) && v * c == c * v;
  }

  /** A common factor can be taken before or after the inverse level. */
  lemma InverseLinear(c: int, x: seq<int>, roots: seq<int>, m: nat, t: nat)
    requires Level(|x|, m, t) && 2 * m <= |roots|
    ensures Inverse(Times(c, x), roots, m, t) == Times(c, Inverse(x, roots, m, t))
  {
    var y := seq(|x|, j requires 0 <= j < |x| => c * x[j]);
    forall j | 0 <= j < |x| ensures (Times(c, x)[j] - y[j]) % Q == 0 {
    }
    InverseResidues(Times(c, x), y, roots, m, t);
    forall j | 0 <= j < |x| ensures InverseAt(y, roots, m, t, j) == (c * InverseAt(x, roots, m, t, j)) % Q {
      Partner(|x|, m, t, j);
      var s := roots[m + Block(t, j)];
      if Lower(t, j) {
        ScaledResidue(c, x[j] + x[j + t]);
        assert c * x[j] + c * x[j + t] == c * (x[j] + x[j + t]);
      } else {
        ScaledResidue(c, (x[j - t] - x[j]) * s * WINV);
        FactorOut(c, x[j - t], x[j], s);
      }
    }
  }

  lemma FactorOut(c: int, a: int, b: int, s: int)
    ensures (c * a - c * b) * s * WINV == c * ((a - b) * s * WINV)
  {
    assert c * a - c * b == c * (a - b);
    assert (c * (a - b)) * s == c * ((a - b) * s);
  }

  // ----- the lazy levels, in place

  /** A lazy value: below a bound, and congruent to what the exact transform has. */
  ghost predicate Stands(v: int, exact: int, bound: int) {
    0 <= v <= bound && (v - exact) % Q == 0
  }

  ghost predicate Bounded(x: seq<int>, bound: int) {
    forall j :: 0 <= j < |x| ==> 0 <= x[j] <= bound
  }

  predicate RootTable(roots: seq<int>) {
    forall k :: 0 <= k < |roots| ==> 0 <= roots[k] < Q
  }

  ghost function Plus(x: seq<int>, j: nat, t: nat, s: int): int
    requires j + t < |x|
  {
    x[j] + x[j + t] * s * WINV
  }

  ghost function Minus(x: seq<int>, j: nat, t: nat, s: int): int
    requires j + t < |x|
  {
    x[j] - x[j + t] * s * WINV
  }

  /** One butterfly of the forward transform. */
  method ForwardButterfly(u: int, w: int, s: int, ghost bound: int) returns (a: int, b: int)
    requires 0 <= u <= bound && 0 <= w <= bound <= 20 * Q && 0 <= s < Q
    ensures Stands(a, u + w * s * WINV, bound + 2 * Q) && Stands(b, u - w * s * WINV, bound + 2 * Q)
  {
    var v := ModMul(w, s);
    ButterflyResidues(u, v, w * s * WINV);
    a := I32(u + v);
    b := I32(u + 2 * Q - v);
  }

  lemma ButterflyResidues(u: int, v: int, e: int)
    requires (v - e) % Q == 0
    ensures ((u + v) - (u + e)) % Q == 0 && ((u + 2 * Q - v) - (u - e)) % Q == 0
  {
  }

  /** What block i asks for: `want` holds the exact entries of the level. */
  ghost predicate ForwardWanted(x0: seq<int>, want: seq<int>, k: nat, t: nat, s: int) {
    |want| == |x0| && k + 2 * t <= |x0|
    && forall j {:trigger Minus(x0, j, t, s)} :: k <= j < k + t ==>
         want[j] == Plus(x0, j, t, s) % Q && want[j + t] == Minus(x0, j, t, s) % Q
  }

  lemma ForwardWants(x0: seq<int>, want: seq<int>, k: nat, t: nat, s: int, j: nat)
    requires ForwardWanted(x0, want, k, t, s) && k <= j < k + t
    ensures want[j] == Plus(x0, j, t, s) % Q && want[j + t] == Minus(x0, j, t, s) % Q
  {
  }

  lemma ForwardLevelWants(x0: seq<int>, roots: seq<int>, m: nat, t: nat, i: nat, k: nat, s: int)
    requires Level(|x0|, m, t) && 2 * m <= |roots| && i < m && s == roots[m + i]
    requires k == 2 * t * i && k + 2 * t <= |x0|
    ensures ForwardWanted(x0, Forward(x0, roots, m, t), k, t, s)
  {
    forall j | k <= j < k + t
      ensures Forward(x0, roots, m, t)[j] == Plus(x0, j, t, s) % Q
              && Forward(x0, roots, m, t)[j + t] == Minus(x0, j, t, s) % Q
    {
      BlockOf(t, i, j, j - k);
      BlockOf(t, i, j + t, j + t - k);
    }
  }

  method ForwardPair(u: int, w: int, s: int, ghost k: nat, ghost t: nat, ghost j: nat, ghost x0: seq<int>,
                     ghost want: seq<int>, ghost bound: int)
      returns (a: int, b: int)
    requires ForwardWanted(x0, want, k, t, s) && k <= j < k + t && u == x0[j] && w == x0[j + t]
    requires 0 <= s < Q && bound <= 20 * Q && Bounded(x0, bound)
    ensures Stands(a, want[j], bound + 2 * Q) && Stands(b, want[j + t], bound + 2 * Q)
  {
    a, b := ForwardButterfly(u, w, s, bound);
    ForwardWants(x0, want, k, t, s, j);
    StandsReduced(a, Plus(x0, j, t, s), bound + 2 * Q);
    StandsReduced(b, Minus(x0, j, t, s), bound + 2 * Q);
  }

  /** The butterflies of the block that starts at k. */
  method ForwardBlock(x: array<int>, s: int, k: nat, t: nat, ghost x0: seq<int>, ghost want: seq<int>, ghost bound: int)
    requires x.Length == |x0| && t >= 1 && 0 <= s < Q && bound <= 20 * Q && ForwardWanted(x0, want, k, t, s)
             && Bounded(x0, bound)
    requires forall j :: k <= j < x.Length ==> x[j] == x0[j]
    modifies x
    ensures forall j :: 0 <= j < k ==> x[j] == old(x[j])
    ensures forall j :: k <= j < k + 2 * t ==> Stands(x[j], want[j], bound + 2 * Q)
    ensures forall j :: k + 2 * t <= j < x.Length ==> x[j] == x0[j]
  {
    for j := k to k + t
      invariant forall i :: 0 <= i < k ==> x[i] == old(x[i])
      invariant forall i :: j <= i < k + t || j + t <= i < x.Length ==> x[i] == x0[i]
      invariant forall i :: k <= i < j || k + t <= i < j + t ==> Stands(x[i], want[i], bound + 2 * Q)
    {
      var a, b := ForwardPair(x[j], x[j + t], s, k, t, j, x0, want, bound);
      x[j] := a;
      x[j + t] := b;
    }
  }

  lemma StandsReduced(v: int, e: int, bound: int)
    requires Stands(v, e, bound)
    ensures Stands(v, e % Q, bound)
  {
  }

  lemma BlockRange(t: nat, i: nat, m: nat)
    requires t >= 1 && i < m
    ensures 0 <= 2 * t * i && 2 * t * i + 2 * t == 2 * t * (i + 1) <= 2 * t * m
  {
    MulSteps(2 * t, i, m);
  }

  lemma MulSteps(d: int, i: int, m: int)
    requires d >= 1 && 0 <= i < m
    ensures 0 <= d * i && d * i + d == d * (i + 1) <= d * m
  {
    Residues.Distribute(d, m, i + 1);
    Residues.Distribute(d, i, 1);
    NotNegative(d, i);
    NotNegative(d, m - (i + 1));
  }

  lemma NotNegative(d: int, i: int)
    requires d >= 1 && i >= 0
    ensures d * i >= 0
  {
  }

  /** One level of `ntt`: every entry stands for the exact one and has grown by at most 2q. */
  method ForwardLevel(x: array<int>, roots: seq<int>, m: nat, t: nat, ghost x0: seq<int>, ghost bound: int)
    requires x[..] == x0 && Level(|x0|, m, t) && 2 * m <= |roots| && RootTable(roots)
    requires Bounded(x0, bound) && bound <= 20 * Q
    modifies x
    ensures Bounded(x[..], bound + 2 * Q) && SameResidues(x[..], Forward(x0, roots, m, t))
  {
    ghost var want := Forward(x0, roots, m, t);
    var k := 0;
    for i := 0 to m
      invariant k == 2 * t * i <= |x0|
      invariant forall j :: 0 <= j < k ==> Stands(x[j], want[j], bound + 2 * Q)
      invariant forall j :: k <= j < |x0| ==> x[j] == x0[j]
    {
      BlockRange(t, i, m);
      ForwardLevelWants(x0, roots, m, t, i, k, roots[m + i]);
      ForwardBlock(x, roots[m + i], k, t, x0, want, bound);
      k := k + 2 * t;
    }
  }

  const DEGREE: nat := 1024

  ghost function Difference(x: seq<int>, j: nat, t: nat, s: int): int
    requires j + t < |x|
  {
    (x[j] - x[j + t]) * s * WINV
  }

  ghost function Both(x: seq<int>, j: nat, t: nat): int
    requires j + t < |x|
  {
    x[j] + x[j + t]
  }

  /** The difference that is kept from becoming negative, times a root. */
  method RootOfDifference(u: int, v: int, s: int) returns (b: int)
    requires 0 <= u <= 1024 * Q && 0 <= v <= 1024 * Q && 0 <= s < Q
    ensures Stands(b, (u - v) * s * WINV, 2 * Q - 1)
  {
    var w := I32(u + DEGREE * Q - v);
    b := ModMul(w, s);
    DifferenceRoot(u, v, w, s, b);
  }

  lemma DifferenceRoot(u: int, v: int, w: int, s: int, b: int)
    requires w == u + DEGREE * Q - v && (b - w * s * WINV) % Q == 0
    ensures (b - (u - v) * s * WINV) % Q == 0
  {
    var d := u - v;
    assert (d + DEGREE * Q) * s == d * s + Q * (DEGREE * s);
    ShiftResidue(b, d * s * WINV, DEGREE * s * WINV);
  }

  lemma ShiftResidue(b: int, e: int, k: int)
    requires (b - (e + Q * k)) % Q == 0
    ensures (b - e) % Q == 0
  {
  }

  /** One butterfly of the inverse transform. */
  method InverseButterfly(u: int, v: int, s: int, ghost bound: int) returns (a: int, b: int)
    requires 0 <= u <= bound && 0 <= v <= bound && Q <= bound <= 1024 * Q && 0 <= s < Q
    ensures Stands(a, u + v, 2 * bound) && Stands(b, (u - v) * s * WINV, 2 * bound)
  {
    a := I32(u + v);
    b := RootOfDifference(u, v, s);
  }

  /** What block i asks for: `want` holds the exact entries of the level. */
  ghost predicate InverseWanted(x0: seq<int>, want: seq<int>, k: nat, t: nat, s: int) {
    |want| == |x0| && k + 2 * t <= |x0|
    && forall j {:trigger Difference(x0, j, t, s)} :: k <= j < k + t ==>
         want[j] == Both(x0, j, t) % Q && want[j + t] == Difference(x0, j, t, s) % Q
  }

  lemma InverseWants(x0: seq<int>, want: seq<int>, k: nat, t: nat, s: int, j: nat)
    requires InverseWanted(x0, want, k, t, s) && k <= j < k + t
    ensures want[j] == Both(x0, j, t) % Q && want[j + t] == Difference(x0, j, t, s) % Q
  {
  }

  lemma InverseLevelWants(x0: seq<int>, roots: seq<int>, m: nat, t: nat, i: nat, k: nat, s: int)
    requires Level(|x0|, m, t) && 2 * m <= |roots| && i < m && s == roots[m + i]
    requires k == 2 * t * i && k + 2 * t <= |x0|
    ensures InverseWanted(x0, Inverse(x0, roots, m, t), k, t, s)
  {
    forall j | k <= j < k + t
      ensures Inverse(x0, roots, m, t)[j] == Both(x0, j, t) % Q
              && Inverse(x0, roots, m, t)[j + t] == Difference(x0, j, t, s) % Q
    {
      BlockOf(t, i, j, j - k);
      BlockOf(t, i, j + t, j + t - k);
    }
  }

  method InversePair(u: int, w: int, s: int, ghost k: nat, ghost t: nat, ghost j: nat, ghost x0: seq<int>,
                     ghost want: seq<int>, ghost bound: int)
      returns (a: int, b: int)
    requires InverseWanted(x0, want, k, t, s) && k <= j < k + t && u == x0[j] && w == x0[j + t]
    requires 0 <= s < Q && Q <= bound <= 1024 * Q && Bounded(x0, bound)
    ensures Stands(a, want[j], 2 * bound) && Stands(b, want[j + t], 2 * bound)
  {
    a, b := InverseButterfly(u, w, s, bound);
    InverseWants(x0, want, k, t, s, j);
    StandsReduced(a, Both(x0, j, t), 2 * bound);
    StandsReduced(b, Difference(x0, j, t, s), 2 * bound);
  }

  /** The butterflies of the block that starts at k. */
  method InverseBlock(x: array<int>, s: int, k: nat, t: nat, ghost x0: seq<int>, ghost want: seq<int>, ghost bound: int)
    requires x.Length == |x0| && t >= 1 && 0 <= s < Q && Q <= bound <= 1024 * Q && InverseWanted(x0, want, k, t, s)
             && Bounded(x0, bound)
    requires forall j :: k <= j < x.Length ==> x[j] == x0[j]
    modifies x
    ensures forall j :: 0 <= j < k ==> x[j] == old(x[j])
    ensures forall j :: k <= j < k + 2 * t ==> Stands(x[j], want[j], 2 * bound)
    ensures forall j :: k + 2 * t <= j < x.Length ==> x[j] == x0[j]
  {
    for j := k to k + t
      invariant forall i :: 0 <= i < k ==> x[i] == old(x[i])
      invariant forall i :: j <= i < k + t || j + t <= i < x.Length ==> x[i] == x0[i]
      invariant forall i :: k <= i < j || k + t <= i < j + t ==> Stands(x[i], want[i], 2 * bound)
    {
      var a, b := InversePair(x[j], x[j + t], s, k, t, j, x0, want, bound);
      x[j] := a;
      x[j + t] := b;
    }
  }

  /** One level of `intt`: every entry stands for the exact one, and the bound doubles. */
  method InverseLevel(x: array<int>, roots: seq<int>, m: nat, t: nat, ghost x0: seq<int>, ghost bound: int)
    requires x[..] == x0 && Level(|x0|, m, t) && 2 * m <= |roots| && RootTable(roots)
    requires Bounded(x0, bound) && Q <= bound <= 1024 * Q
    modifies x
    ensures Bounded(x[..], 2 * bound) && SameResidues(x[..], Inverse(x0, roots, m, t))
  {
    ghost var want := Inverse(x0, roots, m, t);
    var k := 0;
    for i := 0 to m
      invariant k == 2 * t * i <= |x0|
      invariant forall j :: 0 <= j < k ==> Stands(x[j], want[j], 2 * bound)
      invariant forall j :: k <= j < |x0| ==> x[j] == x0[j]
    {
      BlockRange(t, i, m);
      InverseLevelWants(x0, roots, m, t, i, k, roots[m + i]);
      InverseBlock(x, roots[m + i], k, t, x0, want, bound);
      k := k + 2 * t;
    }
  }

  // ----- the whole transforms

  lemma LevelShape(lg: nat, l: nat)
    requires l < lg
    ensures Level(Pow2(lg), Pow2(l), Pow2(lg - 1 - l))
  {
    Pow2Add(1 + (lg - 1 - l), l);
    assert Pow2(1 + (lg - 1 - l)) == 2 * Pow2(lg - 1 - l);
  }

  /** The first l levels of the exact forward transform. */
  ghost function Upto(x: seq<int>, roots: seq<int>, lg: nat, l: nat): (y: seq<int>)
    requires l <= lg && |x| == Pow2(lg) == |roots|
    ensures |y| == |x|
  {
    if l == 0 then x
    else
      LevelShape(lg, l - 1);
      Pow2Monotone(l, lg);
      Forward(Upto(x, roots, lg, l - 1), roots, Pow2(l - 1), Pow2(lg - l))
  }

  /** The levels l - 1 down to 1 of the exact inverse transform. */
  ghost function Downto(y: seq<int>, iroots: seq<int>, lg: nat, l: nat): (x: seq<int>)
    requires 1 <= l <= lg && |y| == Pow2(lg) == |iroots|
    ensures |x| == |y|
    decreases l
  {
    if l == 1 then y
    else
      LevelShape(lg, l - 1);
      Pow2Monotone(l, lg);
      Downto(Inverse(y, iroots, Pow2(l - 1), Pow2(lg - l)), iroots, lg, l - 1)
  }

  lemma TimesTimes(c: int, d: int, x: seq<int>)
    ensures Times(c, Times(d, x)) == Times(c * d, x)
  {
    forall j | 0 <= j < |x| ensures (c * ((d * x[j]) % Q)) % Q == ((c * d) * x[j]) % Q {
      ScaledResidue(c, d * x[j]);
      assert c * (d * x[j]) == (c * d) * x[j];
    }
  }

  /** One inverse level on a multiple of a partial transform. */
  lemma LevelUndo(x: seq<int>, roots: seq<int>, iroots: seq<int>, lg: nat, l: nat, c: int)
    requires 2 <= l <= lg && |x| == Pow2(lg) == |roots| && InverseRoots(roots, iroots)
    ensures Downto(Times(c, Upto(x, roots, lg, l)), iroots, lg, l)
            == Downto(Times(c * 2, Upto(x, roots, lg, l - 1)), iroots, lg, l - 1)
  {
    LevelShape(lg, l - 1);
    Pow2Monotone(l, lg);
    var z := Upto(x, roots, lg, l - 1);
    InverseLinear(c, Upto(x, roots, lg, l), iroots, Pow2(l - 1), Pow2(lg - l));
    InverseUndoes(z, roots, iroots, Pow2(l - 1), Pow2(lg - l));
    TimesTimes(c, 2, z);
  }

  lemma DoubleFactor(c: int, p: int)
    ensures (c * 2) * p == c * (2 * p)
  {
  }

  /** The inverse levels undo the forward levels down to the first, with a factor of two each. */
  lemma {:induction false} LevelsUndo(x: seq<int>, roots: seq<int>, iroots: seq<int>, lg: nat, l: nat, c: int)
    requires 1 <= l <= lg && |x| == Pow2(lg) == |roots| && InverseRoots(roots, iroots)
    ensures Downto(Times(c, Upto(x, roots, lg, l)), iroots, lg, l) == Times(c * Pow2(l - 1), Upto(x, roots, lg, 1))
    decreases l
  {
    if l > 1 {
      LevelUndo(x, roots, iroots, lg, l, c);
      LevelsUndo(x, roots, iroots, lg, l - 1, c * 2);
      DoubleFactor(c, Pow2(l - 2));
    }
  }

  lemma DegreeIs(lg: nat)
    requires lg == 10
    ensures Pow2(lg) == DEGREE
  {
    var h: nat := 5;
    assert Pow2(h) == 32 by { assert Pow2(5) == 32; }
    Pow2Add(h, h);
  }

  /** `nres`: into Montgomery form. */
  function NRes(x: int): (r: int)
    requires 0 <= x <= 2 * Q
    ensures 0 <= r <= Q && (r - W * x) % Q == 0
  {
    NResResidue(x, Redc(x * R2MODP));
    Redc(U64(x * R2MODP))
  }

  lemma NResResidue(x: int, r: int)
    requires (r - (x * R2MODP) * WINV) % Q == 0
    ensures (r - W * x) % Q == 0
  {
    assert R2MODP * WINV - W == Q * ((R2MODP * WINV - W) / Q);
  }

  method ToMontgomery(x: array<int>, ghost x0: seq<int>)
    requires x[..] == x0 && Bounded(x0, 2 * Q)
    modifies x
    ensures Bounded(x[..], Q) && SameResidues(x[..], Times(W, x0))
  {
    for j := 0 to x.Length
      invariant forall i :: 0 <= i < j ==> Stands(x[i], W * x0[i], Q)
      invariant forall i :: j <= i < x.Length ==> x[i] == x0[i]
    {
      x[j] := NRes(x[j]);
    }
    forall j | 0 <= j < |x0| ensures (x[j] - Times(W, x0)[j]) % Q == 0 {
      StandsReduced(x[j], W * x0[j], Q);
    }
  }

  /** What `ntt` computes, exactly. */
  ghost function Ntt(x: seq<int>, roots: seq<int>, lg: nat): (y: seq<int>)
    requires |x| == Pow2(lg) == |roots|
    ensures |y| == |x|
  {
    Upto(Times(W, x), roots, lg, lg)
  }

  lemma UptoNext(x: seq<int>, y: seq<int>, roots: seq<int>, lg: nat, l: nat)
    requires l < lg && |x| == Pow2(lg) == |roots| && SameResidues(y, Upto(x, roots, lg, l))
    ensures Level(Pow2(lg), Pow2(l), Pow2(lg - 1 - l)) && 2 * Pow2(l) <= |roots|
    ensures Forward(y, roots, Pow2(l), Pow2(lg - 1 - l)) == Upto(x, roots, lg, l + 1)
  {
    LevelShape(lg, l);
    Pow2Monotone(l + 1, lg);
    ForwardResidues(y, Upto(x, roots, lg, l), roots, Pow2(l), Pow2(lg - 1 - l));
  }

  /** `ntt`: from inputs up to 2q, every value stays below 22q and stands for the exact transform. */
  method NttInPlace(x: array<int>, roots: seq<int>, ghost lg: nat)
    requires lg == 10 && x.Length == |roots| == DEGREE == Pow2(lg) && RootTable(roots) && Bounded(x[..], 2 * Q)
    modifies x
    ensures Bounded(x[..], 21 * Q) && SameResidues(x[..], Ntt(old(x[..]), roots, lg))
  {
    ghost var X := Times(W, x[..]);
    ToMontgomery(x, x[..]);
    var m, t := 1, DEGREE / 2;
    ghost var l := 0;
    HalfDegree(lg);
    while m < DEGREE
      invariant l <= lg && m == Pow2(l) && (l < lg ==> t == Pow2(lg - 1 - l)) && (l == lg ==> m == DEGREE)
      invariant Bounded(x[..], (1 + 2 * l) * Q) && SameResidues(x[..], Upto(X, roots, lg, l))
      decreases lg - l
    {
      UptoNext(X, x[..], roots, lg, l);
      ForwardLevel(x, roots, m, t, x[..], (1 + 2 * l) * Q);
      t := t / 2;
      m := m * 2;
      l := l + 1;
    }
    PowOrder(l, lg);
  }

  lemma HalfDegree(lg: nat)
    requires lg == 10
    ensures Pow2(lg - 1) == DEGREE / 2
  {
    DegreeIs(lg);
  }

  lemma PowOrder(l: nat, lg: nat)
    requires l <= lg && Pow2(l) >= Pow2(lg)
    ensures l == lg
  {
    if l < lg {
      Pow2Monotone(l + 1, lg);
    }
  }

  // ----- reductions and the inverse transform

  /** r - q, and q added back to a negative number by its sign bit. */
  function Canonical(r: int): (c: int)
    requires 0 <= r <= Q
    ensures c == r % Q
  {
    var e := I32(r - Q);
    I32(e + (if e < 0 then Q else 0))
  }

  /** `poly_hard_reduce`: the residues themselves. */
  method HardReduce(x: array<int>)
    requires Bounded(x[..], 22 * Q)
    modifies x
    ensures forall j :: 0 <= j < x.Length ==> x[j] == old(x[j]) % Q
  {
    for j := 0 to x.Length
      invariant forall i :: 0 <= i < j ==> x[i] == old(x[i]) % Q
      invariant forall i :: j <= i < x.Length ==> x[i] == old(x[i])
    {
      assert x[j] == old(x[..])[j];
      x[j] := FullReduce(x[j]);
    }
  }

  function FullReduce(v: int): (r: int)
    requires 0 <= v <= 22 * Q
    ensures r == v % Q
  {
    OneResidue(v, ModMul(v, ONE));
    Canonical(ModMul(v, ONE))
  }

  lemma OneResidue(v: int, e: int)
    requires (e - v * ONE * WINV) % Q == 0
    ensures e % Q == v % Q
  {
    assert ONE * WINV == 1 + Q * ((ONE * WINV) / Q);
    assert v * ONE * WINV == v + Q * (v * ((ONE * WINV) / Q));
  }

  /** The constant for the upper half of the last level is the one for the lower half times the
      first inverse root. */
  predicate LastRoot(iroots: seq<int>) {
    |iroots| == DEGREE && (INVPR - INV * iroots[1] * WINV) % Q == 0
  }

  /** What `intt` computes, exactly: all levels, and the factor that undoes the doublings and the
      Montgomery form. */
  ghost function Intt(y: seq<int>, iroots: seq<int>, lg: nat): (x: seq<int>)
    requires lg >= 1 && |y| == Pow2(lg) == |iroots|
    ensures |x| == |y|
  {
    LevelShape(lg, 0);
    Pow2Monotone(1, lg);
    Times(INV * WINV * WINV, Inverse(Downto(y, iroots, lg, lg), iroots, Pow2(0), Pow2(lg - 1)))
  }

  lemma DowntoNext(y: seq<int>, z: seq<int>, iroots: seq<int>, lg: nat, l: nat)
    requires 1 <= l < lg && |y| == Pow2(lg) == |iroots| && SameResidues(z, y)
    ensures Level(Pow2(lg), Pow2(l), Pow2(lg - 1 - l)) && 2 * Pow2(l) <= |iroots|
    ensures Downto(Inverse(z, iroots, Pow2(l), Pow2(lg - 1 - l)), iroots, lg, l) == Downto(y, iroots, lg, l + 1)
  {
    LevelShape(lg, l);
    Pow2Monotone(l + 1, lg);
    InverseResidues(z, y, iroots, Pow2(l), Pow2(lg - 1 - l));
  }

  /** The levels of `intt` but the last: values entering a level stay within 1024q. */
  method InverseLevels(x: array<int>, iroots: seq<int>, ghost lg: nat, ghost y: seq<int>)
    requires lg == 10 && x[..] == y && x.Length == |iroots| == DEGREE == Pow2(lg) && RootTable(iroots)
             && Bounded(y, 2 * Q)
    modifies x
    ensures Bounded(x[..], 1024 * Q) && SameResidues(x[..], Downto(y, iroots, lg, lg))
  {
    var m, t := DEGREE / 2, 1;
    ghost var l: nat := lg - 1;
    ghost var z := y;
    HalfDegree(lg);
    assert Pow2(0) == 1 && Pow2(1) == 2;
    while m > 1
      invariant l <= lg - 1 && m == Pow2(l) && t == Pow2(lg - 1 - l) && |z| == |y|
      invariant Bounded(x[..], Pow2(lg - l) * Q) && SameResidues(x[..], z)
      invariant Downto(z, iroots, lg, l + 1) == Downto(y, iroots, lg, lg)
      decreases l
    {
      DowntoNext(z, x[..], iroots, lg, l);
      LevelBound(lg, l);
      z := Inverse(x[..], iroots, m, t);
      InverseLevel(x, iroots, m, t, x[..], Pow2(lg - l) * Q);
      t := t * 2;
      m := m / 2;
      l := l - 1;
    }
    PowOrder(0, l);
    LastLevelBound(lg, l);
  }

  lemma LevelBound(lg: nat, l: nat)
    requires lg == 10 && l < lg && Pow2(l) > 1
    ensures l >= 1 && 1 <= Pow2(lg - l) <= 1024 && Pow2(lg - (l - 1)) * Q == 2 * (Pow2(lg - l) * Q)
  {
    DegreeIs(lg);
    Pow2Monotone(lg - l, lg);
    assert l >= 1;
    assert Pow2(lg - (l - 1)) == 2 * Pow2(lg - l);
  }

  lemma LastLevelBound(lg: nat, l: nat)
    requires lg == 10 && l == 0
    ensures Pow2(lg - l) * Q == 1024 * Q
  {
    DegreeIs(lg);
  }

  /** What the last level leaves at j, before the conversion. */
  ghost function LastWant(z: seq<int>, j: nat): int
    requires |z| == DEGREE && j < DEGREE
  {
    if j < 512 then (z[j] + z[j + 512]) * INV * WINV else (z[j - 512] - z[j]) * INVPR * WINV
  }

  /** The last level, merged with the factor 1/n. */
  method LastLevel(x: array<int>, ghost x0: seq<int>)
    requires x[..] == x0 && x.Length == DEGREE && Bounded(x0, 1024 * Q)
    modifies x
    ensures forall j :: 0 <= j < DEGREE ==> Stands(x[j], LastWant(x0, j), 2 * Q - 1)
  {
    var t := DEGREE / 2;
    for j := 0 to t
      invariant forall i :: j <= i < 512 || 512 + j <= i < DEGREE ==> x[i] == x0[i]
      invariant forall i :: 0 <= i < j || 512 <= i < 512 + j ==> Stands(x[i], LastWant(x0, i), 2 * Q - 1)
    {
      var a, b := LastButterfly(x[j], x[j + t]);
      x[j + t] := b;
      x[j] := a;
    }
  }

  method LastButterfly(u: int, v: int) returns (a: int, b: int)
    requires 0 <= u <= 1024 * Q && 0 <= v <= 1024 * Q
    ensures Stands(a, (u + v) * INV * WINV, 2 * Q - 1) && Stands(b, (u - v) * INVPR * WINV, 2 * Q - 1)
  {
    b := RootOfDifference(u, v, INVPR);
    a := ModMul(I32(u + v), INV);
  }

  /** One value back from Montgomery form, in normal form. */
  function FromMontgomery(v: int): (r: int)
    requires 0 <= v < 2 * Q
    ensures r == (v * WINV) % Q
  {
    EqualResidue(Redc(v), v * WINV);
    Canonical(Redc(U64(v)))
  }

  lemma LastResidue(e: int, p: int)
    requires (e - p) % Q == 0
    ensures (e * WINV) % Q == (p * WINV) % Q
  {
    var k := (e - p) / Q;
    assert e == p + Q * k;
    Residues.ModShift(p * WINV, Q, k * WINV);
    assert e * WINV == p * WINV + Q * (k * WINV);
  }

  /** An entry of the last level and the conversion, against the exact transform. */
  lemma LastExact(z: seq<int>, iroots: seq<int>, j: nat, e: int)
    requires |z| == DEGREE && LastRoot(iroots) && j < DEGREE && Level(DEGREE, 1, 512)
    requires (e - LastWant(z, j)) % Q == 0
    ensures (e * WINV) % Q == (INV * WINV * WINV * InverseAt(z, iroots, 1, 512, j)) % Q
  {
    var c := INV * WINV * WINV;
    BlockOf(512, 0, j, j);
    if j < 512 {
      var d := z[j] + z[j + 512];
      LastResidue(e, d * INV * WINV);
      ScaledResidue(c, d);
      assert d * INV * WINV * WINV == c * d;
    } else {
      var d := z[j - 512] - z[j];
      LastResidue(e, d * INVPR * WINV);
      ScaledResidue(c, d * iroots[1] * WINV);
      UpperConstant(d, iroots[1]);
    }
  }

  lemma UpperConstant(d: int, s: int)
    requires (INVPR - INV * s * WINV) % Q == 0
    ensures (d * INVPR * WINV * WINV) % Q == (INV * WINV * WINV * (d * s * WINV)) % Q
  {
    var k := (INVPR - INV * s * WINV) / Q;
    assert INVPR == INV * s * WINV + Q * k;
    UpperIdentity(d, s, INVPR, k);
    Residues.ModShift(INV * WINV * WINV * (d * s * WINV), Q, d * k * WINV * WINV);
  }

  lemma UpperIdentity(d: int, s: int, c: int, k: int)
    requires c == INV * s * WINV + Q * k
    ensures d * c * WINV * WINV == INV * WINV * WINV * (d * s * WINV) + Q * (d * k * WINV * WINV)
  {
    assert d * c == INV * WINV * (d * s) + Q * (d * k);
  }

  /** `intt`: from inputs below 2q nothing overflows, and the outputs are the exact inverse
      transform, in normal form. */
  method InttInPlace(x: array<int>, iroots: seq<int>, ghost lg: nat)
    requires lg == 10 && x.Length == DEGREE == Pow2(lg) && RootTable(iroots) && LastRoot(iroots)
             && Bounded(x[..], 2 * Q)
    modifies x
    ensures x[..] == Intt(old(x[..]), iroots, lg)
  {
    ghost var y := x[..];
    InverseLevels(x, iroots, lg, y);
    ghost var z := x[..];
    LastLevel(x, z);
    ghost var e := x[..];
    Normalise(x, e);
    LastMeaning(y, z, e, x[..], iroots, lg);
  }

  method Normalise(x: array<int>, ghost e: seq<int>)
    requires x[..] == e && Bounded(e, 2 * Q - 1)
    modifies x
    ensures forall j :: 0 <= j < x.Length ==> x[j] == (e[j] * WINV) % Q
  {
    for j := 0 to x.Length
      invariant forall i :: 0 <= i < j ==> x[i] == (e[i] * WINV) % Q
      invariant forall i :: j <= i < x.Length ==> x[i] == e[i]
    {
      x[j] := FromMontgomery(x[j]);
    }
  }

  lemma LastMeaning(y: seq<int>, z: seq<int>, e: seq<int>, x: seq<int>, iroots: seq<int>, lg: nat)
    requires lg == 10 && |y| == |e| == |x| == DEGREE == Pow2(lg) && LastRoot(iroots)
    requires SameResidues(z, Downto(y, iroots, lg, lg))
    requires forall j :: 0 <= j < DEGREE ==> Stands(e[j], LastWant(z, j), 2 * Q - 1)
    requires forall j :: 0 <= j < DEGREE ==> x[j] == (e[j] * WINV) % Q
    ensures x == Intt(y, iroots, lg)
  {
    HalfDegree(lg);
    LevelShape(lg, 0);
    Pow2Monotone(1, lg);
    assert Pow2(0) == 1;
    var w := Downto(y, iroots, lg, lg);
    InverseResidues(z, w, iroots, 1, 512);
    LastEntries(z, e, x, iroots);
  }

  lemma LastEntries(z: seq<int>, e: seq<int>, x: seq<int>, iroots: seq<int>)
    requires |z| == |e| == |x| == DEGREE && LastRoot(iroots) && Level(DEGREE, 1, 512)
    requires forall j :: 0 <= j < DEGREE ==> Stands(e[j], LastWant(z, j), 2 * Q - 1)
    requires forall j :: 0 <= j < DEGREE ==> x[j] == (e[j] * WINV) % Q
    ensures x == Times(INV * WINV * WINV, Inverse(z, iroots, 1, 512))
  {
    var y := Inverse(z, iroots, 1, 512);
    forall j | 0 <= j < DEGREE ensures x[j] == (INV * WINV * WINV * y[j]) % Q {
      LastExact(z, iroots, j, e[j]);
      assert y[j] == InverseAt(z, iroots, 1, 512, j);
    }
  }

  // ----- the round trip

  lemma {:induction false} DowntoResidues(y: seq<int>, z: seq<int>, iroots: seq<int>, lg: nat, l: nat)
    requires 2 <= l <= lg && |y| == Pow2(lg) == |iroots| && SameResidues(z, y)
    ensures Downto(z, iroots, lg, l) == Downto(y, iroots, lg, l)
  {
    LevelShape(lg, l - 1);
    Pow2Monotone(l, lg);
    InverseResidues(z, y, iroots, Pow2(l - 1), Pow2(lg - l));
  }

  lemma RoundTripFactor(x: seq<int>)
    ensures Times(INV * WINV * WINV * (1024 * W), x) == Times(1, x)
  {
    var f := INV * WINV * WINV * (1024 * W);
    assert f == 1 + Q * (f / Q);
    forall j | 0 <= j < |x| ensures (f * x[j]) % Q == (1 * x[j]) % Q {
      assert f * x[j] == x[j] + Q * ((f / Q) * x[j]);
    }
  }

  /** The exact transforms invert each other: from any representatives of the transform of x, the
      inverse gives back the residues of x. */
  lemma TransformsInvert(x: seq<int>, y: seq<int>, roots: seq<int>, iroots: seq<int>, lg: nat)
    requires lg == 10 && |x| == Pow2(lg) == |roots| && InverseRoots(roots, iroots) && SameResidues(y, Ntt(x, roots, lg))
    ensures Intt(y, iroots, lg) == Times(1, x)
  {
    var X := Times(W, x);
    var Y, F := Upto(X, roots, lg, lg), Upto(X, roots, lg, 1);
    LevelShape(lg, 0);
    Pow2Monotone(1, lg);
    TimesOne(Y, y);
    DowntoResidues(Times(1, Y), y, iroots, lg, lg);
    LevelsUndo(X, roots, iroots, lg, lg, 1);
    InverseLinear(1 * Pow2(lg - 1), F, iroots, Pow2(0), Pow2(lg - 1));
    InverseUndoes(X, roots, iroots, Pow2(0), Pow2(lg - 1));
    HalfDegree(lg);
    TimesTimes(512, 2, X);
    TimesTimes(1024, W, x);
    TimesTimes(INV * WINV * WINV, 1024 * W, x);
    RoundTripFactor(x);
  }

  lemma TimesOne(Y: seq<int>, y: seq<int>)
    requires SameResidues(y, Y)
    ensures SameResidues(y, Times(1, Y))
  {
    forall j | 0 <= j < |Y| ensures (y[j] - Times(1, Y)[j]) % Q == 0 {
    }
  }

  /** `ntt`, a full reduction and `intt` in a row give back every polynomial, in normal form. */
  method NttRoundTrip(x: array<int>, roots: seq<int>, iroots: seq<int>)
    requires x.Length == |roots| == DEGREE && RootTable(roots) && RootTable(iroots)
    requires InverseRoots(roots, iroots) && LastRoot(iroots) && Bounded(x[..], 2 * Q)
    modifies x
    ensures forall j :: 0 <= j < DEGREE ==> x[j] == old(x[j]) % Q
  {
    ghost var x0 := x[..];
    ghost var lg: nat := 10;
    DegreeIs(lg);
    NttInPlace(x, roots, lg);
    ghost var y0 := x[..];
    HardReduce(x);
    ReducedSame(y0, x[..], Ntt(x0, roots, lg));
    TransformsInvert(x0, x[..], roots, iroots, lg);
    InttInPlace(x, iroots, lg);
  }

  lemma ReducedSame(y: seq<int>, r: seq<int>, e: seq<int>)
    requires SameResidues(y, e) && |r| == |y| && forall j :: 0 <= j < |y| ==> r[j] == y[j] % Q
    ensures SameResidues(r, e) && Bounded(r, 2 * Q)
  {
    forall j | 0 <= j < |y| ensures (r[j] - e[j]) % Q == 0 {
      assert (y[j] - e[j]) % Q == 0;
    }
  }
}
