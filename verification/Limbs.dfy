/** Multi-limb integers (`src/core/schemes/mcore/src/bls12381/big.rs` and `dbig.rs`): signed limbs
    of 58 bits with lazy carries, lowest first, in 64-bit words.  A number of 7 limbs and one of
    14 share the code here, so the operations are proved for every number of limbs.  A bitwise
    `or` whose operands have no bit in common is written as a sum, `&` with the limb mask as a
    remainder and an arithmetic shift as a floor division. */
module Limbs {
  import Digits
  import Residues
  import opened Vectors

  /** 2^58, and half of it. */
  const RADIX: int := 0x400_0000_0000_0000
  const HALF: int := 0x200_0000_0000_0000

  /** A 64-bit word: the precondition is the absence of overflow. */
  function Word(x: int): int
    requires -0x8000_0000_0000_0000 <= x < 0x8000_0000_0000_0000
  {
    x
  }

  /** The integer that limbs stand for. */
  function Value(w: seq<int>): int {
    if w == [] then 0 else w[0] + 0x400_0000_0000_0000 * Value(w[1..])
  }

  lemma ValueCons(x: int, w: seq<int>)
    ensures Value([x] + w) == x + RADIX * Value(w)
  {
    assert ([x] + w)[1..] == w;
  }

  lemma ValueFrom(w: seq<int>, i: nat)
    requires i < |w|
    ensures Value(w[i..]) == w[i] + RADIX * Value(w[i + 1..])
  {
    assert w[i..][1..] == w[i + 1..];
  }

  predicate IsLimb(x: int) {
    0 <= x < RADIX
  }

  /** Normal form: every limb but the top one is in range.  The top limb carries the sign. */
  predicate Normal(w: seq<int>) {
    |w| >= 1 && forall i :: 0 <= i < |w| - 1 ==> IsLimb(w[i])
  }

  /** Normal form of a number in range: the top limb is a limb too. */
  predicate Reduced(w: seq<int>) {
    |w| >= 1 && forall i :: 0 <= i < |w| ==> IsLimb(w[i])
  }

  /** Limbs of bounded magnitude, as additions and subtractions without carries leave them. */
  predicate Within(w: seq<int>, b: int) {
    |w| >= 1 && forall i :: 0 <= i < |w| ==> -b <= w[i] <= b
  }

  /** The laziest form that a normalisation accepts. */
  const LAZY: int := 0x4000_0000_0000_0000

  predicate Lazy(w: seq<int>) {
    Within(w, LAZY)
  }

  /** b times the radix to the k. */
  function Scaled(b: int, k: nat): int {
    if k == 0 then b else 0x400_0000_0000_0000 * Scaled(b, k - 1)
  }

  // ----- the top limb decides sign and size

  lemma {:induction false} TopSign(w: seq<int>)
    requires Normal(w)
    ensures Value(w) < 0 <==> w[|w| - 1] < 0
  {
    ValueFrom(w, 0);
    assert w[0..] == w;
    if |w| > 1 {
      TopSign(w[1..]);
    }
  }

  lemma {:induction false} TopBelow(w: seq<int>, b: int)
    requires Normal(w)
    ensures Value(w) < Scaled(b, |w| - 1) <==> w[|w| - 1] < b
  {
    ValueFrom(w, 0);
    assert w[0..] == w;
    if |w| > 1 {
      TopBelow(w[1..], b);
    }
  }

  /** A number in normal form is in range exactly when its value is. */
  lemma ReducedIff(w: seq<int>)
    requires Normal(w)
    ensures Reduced(w) <==> 0 <= Value(w) < Scaled(RADIX, |w| - 1)
  {
    TopSign(w);
    TopBelow(w, RADIX);
  }

  lemma {:induction false} ScaledDouble(b: int, k: nat)
    ensures Scaled(2 * b, k) == 2 * Scaled(b, k)
  {
    if k > 0 {
      ScaledDouble(b, k - 1);
    }
  }

  /** The range of n limbs is twice the half range. */
  lemma Ranges(n: nat)
    ensures Scaled(RADIX, n) == 2 * Scaled(HALF, n)
  {
    ScaledDouble(HALF, n);
  }

  // ----- norm

  /** Carries moved up from the lowest limb. */
  function Carried(w: seq<int>, carry: int): (r: seq<int>)
    requires |w| >= 1
    ensures |r| == |w|
  {
    if |w| == 1 then [w[0] + carry] else [(w[0] + carry) % RADIX] + Carried(w[1..], (w[0] + carry) / RADIX)
  }

  lemma {:induction false} CarriedMeaning(w: seq<int>, carry: int)
    requires |w| >= 1
    ensures Normal(Carried(w, carry)) && Value(Carried(w, carry)) == Value(w) + carry
  {
    if |w| == 1 {
      assert Carried(w, carry)[1..] == [] && w[1..] == [];
    } else {
      CarriedMeaning(w[1..], (w[0] + carry) / RADIX);
      ValueCons((w[0] + carry) % RADIX, Carried(w[1..], (w[0] + carry) / RADIX));
    }
  }

  lemma CarriedFrom(w: seq<int>, i: nat, carry: int)
    requires i + 1 < |w|
    ensures Carried(w[i..], carry) == [(w[i] + carry) % RADIX] + Carried(w[i + 1..], (w[i] + carry) / RADIX)
  {
    assert w[i..][1..] == w[i + 1..];
  }

  /** The state after k columns: the limbs so far, then what the carry and the columns to come will give. */
  ghost predicate Emitted(c: seq<int>, cols: seq<int>, k: nat, t: int) {
    k < |cols| == |c| && c[..k] + Carried(cols[k..], t) == Carried(cols, 0)
  }

  lemma EmitStep(c: seq<int>, cols: seq<int>, k: nat, t: int, x: int)
    requires Emitted(c, cols, k, t) && k + 1 < |cols| && x == t + cols[k]
    ensures Emitted(c[k := x % RADIX], cols, k + 1, x / RADIX)
  {
    CarriedFrom(cols, k, t);
    assert c[k := x % RADIX][..k + 1] == c[..k] + [x % RADIX];
  }

  lemma EmitLast(c: seq<int>, cols: seq<int>, t: int)
    requires |cols| >= 1 && Emitted(c, cols, |cols| - 1, t)
    ensures Normal(c[|c| - 1 := t + cols[|c| - 1]]) && Value(c[|c| - 1 := t + cols[|c| - 1]]) == Value(cols)
  {
    assert cols[|cols| - 1..] == [cols[|cols| - 1]];
    assert c[|c| - 1 := t + cols[|c| - 1]] == c[..|c| - 1] + [t + cols[|c| - 1]];
    CarriedMeaning(cols, 0);
  }

  lemma EmitStarts(c: seq<int>, cols: seq<int>)
    requires |c| == |cols| >= 1
    ensures Emitted(c, cols, 0, 0)
  {
    assert cols[0..] == cols && c[..0] == [];
  }

  /** `norm`: normal form of the same value. */
  method Norm(w: array<int>)
    requires w.Length >= 2 && Lazy(w[..])
    modifies w
    ensures Normal(w[..]) && Value(w[..]) == old(Value(w[..]))
  {
    ghost var w0 := w[..];
    var n := w.Length;
    EmitStarts(w0, w0);
    EmitStep(w0, w0, 0, 0, w[0]);
    var carry := w[0] / RADIX;
    w[0] := w[0] % RADIX;
    assert w[..] == w0[0 := w0[0] % RADIX];
    for i := 1 to n - 1
      invariant -32 <= carry <= 32
      invariant forall j :: i <= j < n ==> w[j] == w0[j]
      invariant Emitted(w[..], w0, i, carry)
    {
      ghost var before := w[..];
      assert -LAZY <= w0[i] <= LAZY;
      var d := Word(w[i] + carry);
      EmitStep(before, w0, i, carry, d);
      w[i] := d % RADIX;
      carry := d / RADIX;
      assert w[..] == before[i := d % RADIX];
    }
    EmitLast(w[..], w0, carry);
    ghost var before := w[..];
    w[n - 1] := Word(w[n - 1] + carry);
    assert w[..] == before[n - 1 := carry + w0[n - 1]];
  }

  lemma {:induction false} ScaledTimes(x: int, k: nat, y: int)
    ensures Scaled(x, k) * y == Scaled(x * y, k)
  {
    if k > 0 {
      ScaledTimes(x, k - 1, y);
      ThreeFactors(0x400_0000_0000_0000, Scaled(x, k - 1), y);
    }
  }

  lemma ThreeFactors(a: int, b: int, c: int)
    ensures a * (b * c) == (a * b) * c
  {
  }

  lemma Surround(t: int, b: int, q: int)
    requires b > 0 && q == t / b
    ensures b * q <= t < b * (q + 1)
  {
    Residues.Distribute(b, q, 1);
  }

  /** The quotient of the top limb is the quotient of the number. */
  lemma TopQuotient(w: seq<int>, b: int)
    requires Normal(w) && b > 0
    ensures Scaled(b, |w| - 1) > 0 && Value(w) / Scaled(b, |w| - 1) == w[|w| - 1] / b
  {
    var k, q := |w| - 1, w[|w| - 1] / b;
    Surround(w[k], b, q);
    TopBelow(w, b * q);
    TopBelow(w, b * (q + 1));
    ScaledTimes(b, k, q);
    ScaledTimes(b, k, q + 1);
    ScaledPositive(b, k);
    Residues.Distribute(Scaled(b, k), q, 1);
    Residues.DivModUnique(Value(w), Scaled(b, k), q, Value(w) - Scaled(b, k) * q);
  }

  lemma {:induction false} ScaledPositive(b: int, k: nat)
    requires b > 0
    ensures Scaled(b, k) > 0
  {
    if k > 0 {
      ScaledPositive(b, k - 1);
    }
  }

  /** 2^(384 % 58): where the 384 bits of a field element end in the top limb. */
  const TOP_BITS: int := 0x10_0000_0000

  /** `norm` of a single-length number, with the excess that it returns: what the value holds above the bits
      of a field element. */
  method NormExcess(w: array<int>) returns (excess: int)
    requires w.Length >= 2 && Lazy(w[..])
    modifies w
    ensures Normal(w[..]) && Value(w[..]) == old(Value(w[..]))
    ensures Scaled(TOP_BITS, w.Length - 1) > 0 && excess == Value(w[..]) / Scaled(TOP_BITS, w.Length - 1)
  {
    Norm(w);
    TopQuotient(w[..], TOP_BITS);
    excess := w[w.Length - 1] / TOP_BITS;
  }

  // ----- limbwise operations

  method Copy(r: array<int>, x: array<int>)
    requires r.Length == x.Length
    modifies r
    ensures r[..] == old(x[..])
  {
    for i := 0 to r.Length
      invariant r != x ==> x[..] == old(x[..])
      invariant r == x ==> r[..] == old(x[..])
      invariant r[..i] == old(x[..i])
    {
      r[i] := x[i];
      assert r[..i + 1] == r[..i] + [r[i]];
    }
    assert r[..] == r[..r.Length];
  }

  lemma {:induction false} ValueDifference(a: seq<int>, b: seq<int>)
    requires |a| == |b|
    ensures Value(Difference(a, b)) == Value(a) - Value(b)
  {
    if a != [] {
      assert Difference(a, b)[1..] == Difference(a[1..], b[1..]);
      ValueDifference(a[1..], b[1..]);
    }
  }

  lemma {:induction false} ValueSum(a: seq<int>, b: seq<int>)
    requires |a| == |b|
    ensures Value(Sum(a, b)) == Value(a) + Value(b)
  {
    if a != [] {
      assert Sum(a, b)[1..] == Sum(a[1..], b[1..]);
      ValueSum(a[1..], b[1..]);
    }
  }

  /** `sub`: no carries, so the limbs may become negative, and the room that both operands use adds up. */
  method Sub(r: array<int>, x: array<int>, ghost b: int, ghost c: int)
    requires r.Length == x.Length >= 1 && r != x && Within(r[..], b) && Within(x[..], c) && b + c <= LAZY
    modifies r
    ensures Within(r[..], b + c) && Value(r[..]) == old(Value(r[..])) - Value(x[..])
  {
    ghost var r0, y := r[..], x[..];
    for i := 0 to r.Length
      invariant x[..] == y
      invariant forall j :: i <= j < r.Length ==> r[j] == r0[j]
      invariant forall j :: 0 <= j < i ==> r[j] == r0[j] - y[j]
    {
      assert -b <= r0[i] <= b && -c <= y[i] <= c && x[i] == y[i];
      r[i] := Word(r[i] - x[i]);
    }
    assert forall j :: 0 <= j < |r0| ==> -b <= r0[j] <= b && -c <= y[j] <= c;
    assert r[..] == Difference(r0, y);
    ValueDifference(r0, y);
  }


  /** `add`, likewise. */
  method Add(r: array<int>, x: array<int>, ghost b: int, ghost c: int)
    requires r.Length == x.Length >= 1 && r != x && Within(r[..], b) && Within(x[..], c) && b + c <= LAZY
    modifies r
    ensures Within(r[..], b + c) && Value(r[..]) == old(Value(r[..])) + Value(x[..])
  {
    ghost var r0, y := r[..], x[..];
    for i := 0 to r.Length
      invariant x[..] == y
      invariant forall j :: i <= j < r.Length ==> r[j] == r0[j]
      invariant forall j :: 0 <= j < i ==> r[j] == r0[j] + y[j]
    {
      assert -b <= r0[i] <= b && -c <= y[i] <= c && x[i] == y[i];
      r[i] := Word(r[i] + x[i]);
    }
    assert forall j :: 0 <= j < |r0| ==> -b <= r0[j] <= b && -c <= y[j] <= c;
    assert r[..] == Sum(r0, y);
    ValueSum(r0, y);
  }


  /** `cmove`: a copy when d is one, nothing when it is zero. */
  method CMove(r: array<int>, x: array<int>, d: int)
    requires r.Length == x.Length && r != x && (d == 0 || d == 1)
    modifies r
    ensures r[..] == if d == 1 then x[..] else old(r[..])
  {
    if d == 1 {
      Copy(r, x);
    }
  }

  // ----- shifts by less than a limb

  /** A shift by k bits multiplies by p = 2^k; q = 2^(58 - k) is what the bits that leave a limb divide by. */
  ghost predicate Splits(p: int, q: int) {
    p >= 1 && q >= 1 && p * q == RADIX
  }

  method Powers(k: nat) returns (p: int, q: int)
    requires k <= 58
    ensures Splits(p, q) && p == Digits.Pow2(k)
  {
    p, q := Digits.Pow2(k), Digits.Pow2(58 - k);
    ghost var n: nat :| n == 58;
    RadixBits(n);
    Digits.Pow2Add(k, n - k);
  }

  /** Limb i of the number shifted left. */
  function RaisedLimb(w: seq<int>, p: int, q: int, i: nat): int
    requires i < |w| && q >= 1
  {
    (if i == |w| - 1 then p * w[i] else (p * w[i]) % RADIX) + (if i == 0 then 0 else w[i - 1] / q)
  }

  lemma RaiseLimb(x: int, p: int, q: int)
    requires IsLimb(x) && Splits(p, q)
    ensures (p * x) % RADIX == p * x - RADIX * (x / q) && 0 <= x / q < p
    ensures 0 <= (p * x) % RADIX <= RADIX - p
  {
    var a, b := x / q, x % q;
    assert x == q * a + b;
    ThreeFactors(p, q, a);
    Residues.Distribute(p, q * a, b);
    Residues.Distribute(p, q, b);
    Residues.MulBounds(p, b);
    Residues.MulBounds(p, q - b);
    Residues.DivModUnique(p * x, RADIX, a, p * b);
    Residues.MulBounds(q, a);
    Residues.MulBounds(q, p - a);
    Residues.Distribute(q, p, a);
  }

  lemma RaiseValue(x: int, p: int, v: int, u: int, rest: int, carry: int, below: int)
    requires u == p * x - RADIX * carry + below && rest == p * v + carry
    ensures u + RADIX * rest == p * (x + RADIX * v) + below
  {
    Residues.Distribute(p, x, RADIX * v);
    assert p * (RADIX * v) == RADIX * (p * v);
  }

  lemma {:induction false} RaisedValue(w: seq<int>, r: seq<int>, p: int, q: int, i: nat)
    requires Splits(p, q) && i < |w| && Reduced(w) && IsRaised(r, w, p, q)
    ensures Value(r[i..]) == p * Value(w[i..]) + (if i == 0 then 0 else w[i - 1] / q)
    decreases |w| - i
  {
    ValueFrom(r, i);
    ValueFrom(w, i);
    var below := if i == 0 then 0 else w[i - 1] / q;
    assert IsLimb(w[i]) && r[i] == RaisedLimb(w, p, q, i);
    if i < |w| - 1 {
      RaisedValue(w, r, p, q, i + 1);
      RaiseLimb(w[i], p, q);
      RaiseValue(w[i], p, Value(w[i + 1..]), r[i], Value(r[i + 1..]), w[i] / q, below);
    } else {
      assert r[i + 1..] == [] && w[i + 1..] == [];
    }
  }

  ghost predicate IsRaised(r: seq<int>, w: seq<int>, p: int, q: int)
    requires q >= 1
  {
    |r| == |w| && forall j {:trigger RaisedLimb(w, p, q, j)} :: 0 <= j < |w| ==> r[j] == RaisedLimb(w, p, q, j)
  }

  ghost function Raised(w: seq<int>, p: int, q: int): (r: seq<int>)
    requires q >= 1
    ensures IsRaised(r, w, p, q)
  {
    seq(|w|, j requires 0 <= j < |w| => RaisedLimb(w, p, q, j))
  }

  /** An inner limb: the low bits of one limb and the high bits of the one below. */
  lemma RaisedInside(r: seq<int>, w: seq<int>, p: int, q: int, i: nat)
    requires Splits(p, q) && IsRaised(r, w, p, q) && Reduced(w) && i < |w| - 1
    ensures r[i] == (p * w[i]) % RADIX + (if i == 0 then 0 else w[i - 1] / q) && IsLimb(r[i])
  {
    assert IsLimb(w[i]) && r[i] == RaisedLimb(w, p, q, i);
    RaiseLimb(w[i], p, q);
    if i > 0 {
      assert IsLimb(w[i - 1]);
      RaiseLimb(w[i - 1], p, q);
    }
  }

  lemma RaisedMeaning(w: seq<int>, r: seq<int>, p: int, q: int)
    requires Splits(p, q) && Reduced(w) && IsRaised(r, w, p, q)
    ensures Normal(r) && Value(r) == p * Value(w)
  {
    forall i | 0 <= i < |r| - 1 ensures IsLimb(r[i]) {
      RaisedInside(r, w, p, q, i);
    }
    RaisedValue(w, r, p, q, 0);
    assert r[0..] == r && w[0..] == w;
  }

  /** The top limb has room for k more bits. */
  ghost predicate HasRoom(top: int, k: nat) {
    Digits.Pow2(k) * (top + 1) <= 0x8000_0000_0000_0000
  }

  /** `fshl` and, below one limb, `shl`: the product with 2^k, and the excess above the bits of a field
      element. */
  method ShiftLeftBy(w: array<int>, k: nat) returns (excess: int)
    requires w.Length >= 2 && Reduced(w[..]) && k < 58 && HasRoom(w[w.Length - 1], k)
    modifies w
    ensures Normal(w[..]) && Value(w[..]) == Digits.Pow2(k) * old(Value(w[..]))
    ensures Scaled(TOP_BITS, w.Length - 1) > 0 && excess == Value(w[..]) / Scaled(TOP_BITS, w.Length - 1)
  {
    var p, q := Powers(k);
    ghost var w0 := w[..];
    ghost var target := Raised(w0, p, q);
    RaiseLimbs(w, p, q, w0, target);
    RaisedMeaning(w0, target, p, q);
    TopQuotient(w[..], TOP_BITS);
    excess := w[w.Length - 1] / TOP_BITS;
  }

  lemma RaisedTop(r: seq<int>, w: seq<int>, p: int, q: int)
    requires Splits(p, q) && IsRaised(r, w, p, q) && Reduced(w) && |w| >= 2
    requires p * (w[|w| - 1] + 1) <= 0x8000_0000_0000_0000
    ensures r[|w| - 1] == p * w[|w| - 1] + w[|w| - 2] / q && 0 <= r[|w| - 1] < 0x8000_0000_0000_0000
  {
    var n := |w|;
    assert r[n - 1] == RaisedLimb(w, p, q, n - 1) && IsLimb(w[n - 2]) && IsLimb(w[n - 1]);
    RaiseLimb(w[n - 2], p, q);
    Residues.Distribute(p, w[n - 1], 1);
    Residues.MulBounds(p, w[n - 1]);
  }

  method RaiseLimbs(w: array<int>, p: int, q: int, ghost w0: seq<int>, ghost target: seq<int>)
    requires w.Length >= 2 && w[..] == w0 && Reduced(w0) && Splits(p, q) && IsRaised(target, w0, p, q)
    requires p * (w0[|w0| - 1] + 1) <= 0x8000_0000_0000_0000
    modifies w
    ensures w[..] == target
  {
    var n := w.Length;
    RaisedTop(target, w0, p, q);
    w[n - 1] := Word(p * w[n - 1] + w[n - 2] / q);
    var i := n - 1;
    while i > 1
      invariant 1 <= i <= n - 1
      invariant forall j :: i <= j < n ==> w[j] == target[j]
      invariant forall j :: 0 <= j < i ==> w[j] == w0[j]
    {
      i := i - 1;
      RaisedInside(target, w0, p, q, i);
      w[i] := Word((p * w[i]) % RADIX + w[i - 1] / q);
    }
    RaisedInside(target, w0, p, q, 0);
    w[0] := (p * w[0]) % RADIX;
  }

  /** `fshl(1)` and `shl(1)`: the double. */
  method ShiftLeft(w: array<int>)
    requires w.Length >= 2 && Reduced(w[..])
    modifies w
    ensures Normal(w[..]) && Value(w[..]) == 2 * old(Value(w[..]))
  {
    assert Digits.Pow2(1) == 2 * Digits.Pow2(0) == 2;
    assert IsLimb(w[..][w.Length - 1]);
    var excess := ShiftLeftBy(w, 1);
  }

  /** Limb i of the number shifted right. */
  function LoweredLimb(w: seq<int>, p: int, q: int, i: nat): int
    requires i < |w| && p >= 1
  {
    w[i] / p + (if i == |w| - 1 then 0 else (w[i + 1] % p) * q)
  }

  ghost predicate IsLowered(r: seq<int>, w: seq<int>, p: int, q: int)
    requires p >= 1
  {
    |r| == |w| && forall j {:trigger LoweredLimb(w, p, q, j)} :: 0 <= j < |w| ==> r[j] == LoweredLimb(w, p, q, j)
  }

  lemma LowerLimb(x: int, next: int, p: int, q: int)
    requires IsLimb(x) && Splits(p, q)
    ensures 0 <= x / p < q && 0 <= next % p < p && 0 <= (next % p) * q <= RADIX - q
    ensures p * (x / p + (next % p) * q) + x % p == x + RADIX * (next % p)
    ensures p * (x / p) + x % p == x
  {
    var a, b, c := x / p, x % p, next % p;
    assert x == p * a + b;
    Residues.MulBounds(p, a);
    Residues.MulBounds(p, q - a);
    Residues.Distribute(p, q, a);
    Residues.MulBounds(q, c);
    Residues.MulBounds(q, p - 1 - c);
    Residues.Distribute(q, p, 1 + c);
    Residues.Distribute(q, 1, c);
    Residues.Distribute(p, a, c * q);
    assert c * q == q * c;
    ThreeFactors(p, q, c);
  }

  lemma LowerValue(x: int, p: int, out: int, c: int, u: int, rest: int, v: int)
    requires p * u + out == x + RADIX * c && p * rest + c == v
    ensures p * (u + RADIX * rest) + out == x + RADIX * v
  {
    Residues.Distribute(p, u, RADIX * rest);
    assert p * (RADIX * rest) == RADIX * (p * rest);
  }

  lemma {:induction false} LoweredValue(w: seq<int>, r: seq<int>, p: int, q: int, i: nat)
    requires Splits(p, q) && i < |w| && Reduced(w) && IsLowered(r, w, p, q)
    ensures p * Value(r[i..]) + w[i] % p == Value(w[i..])
    decreases |w| - i
  {
    ValueFrom(r, i);
    ValueFrom(w, i);
    assert r[i] == LoweredLimb(w, p, q, i) && IsLimb(w[i]);
    if i < |w| - 1 {
      LoweredValue(w, r, p, q, i + 1);
      LowerLimb(w[i], w[i + 1], p, q);
      LowerValue(w[i], p, w[i] % p, w[i + 1] % p, r[i], Value(r[i + 1..]), Value(w[i + 1..]));
    } else {
      LowerLimb(w[i], 0, p, q);
      assert r[i + 1..] == [] && w[i + 1..] == [];
    }
  }

  lemma LoweredLimbs(w: seq<int>, r: seq<int>, p: int, q: int)
    requires Splits(p, q) && Reduced(w) && IsLowered(r, w, p, q)
    ensures Reduced(r)
  {
    forall i | 0 <= i < |r| ensures IsLimb(r[i]) {
      assert r[i] == LoweredLimb(w, p, q, i) && IsLimb(w[i]);
      LowerLimb(w[i], if i < |w| - 1 then w[i + 1] else 0, p, q);
      assert q <= RADIX by {
        Residues.MulBounds(q, p);
      }
    }
  }

  lemma Parity(w: seq<int>)
    requires |w| >= 1
    ensures Value(w) % 2 == w[0] % 2
  {
  }

  /** `fshr` and, below one limb, `shr`: the quotient by 2^k, rounded down, and the remainder, which is the part
      shifted out. */
  method ShiftRightBy(w: array<int>, k: nat) returns (out: int)
    requires w.Length >= 2 && Reduced(w[..]) && k < 58
    modifies w
    ensures Reduced(w[..]) && Value(w[..]) == old(Value(w[..])) / Digits.Pow2(k)
    ensures out == old(Value(w[..])) % Digits.Pow2(k)
  {
    var p, q := Powers(k);
    ghost var w0 := w[..];
    out := w[0] % p;
    LowerLimbs(w, p, q, w0);
    LoweredLimbs(w0, w[..], p, q);
    LoweredValue(w0, w[..], p, q, 0);
    assert w[..][0..] == w[..] && w0[0..] == w0;
    Residues.DivModUnique(Value(w0), p, Value(w[..]), out);
  }

  method LowerLimbs(w: array<int>, p: int, q: int, ghost w0: seq<int>)
    requires w.Length >= 2 && w[..] == w0 && p >= 1
    modifies w
    ensures IsLowered(w[..], w0, p, q)
  {
    var n := w.Length;
    for i := 0 to n - 1
      invariant forall j {:trigger LoweredLimb(w0, p, q, j)} :: 0 <= j < i ==> w[j] == LoweredLimb(w0, p, q, j)
      invariant forall j :: i <= j < n ==> w[j] == w0[j]
    {
      w[i] := w[i] / p + (w[i + 1] % p) * q;
      assert w[i] == LoweredLimb(w0, p, q, i);
    }
    w[n - 1] := w[n - 1] / p;
    assert w[n - 1] == LoweredLimb(w0, p, q, n - 1);
  }

  /** `fshr(1)` and `shr(1)`: the half, rounded down. */
  method ShiftRight(w: array<int>)
    requires w.Length >= 2 && Reduced(w[..])
    modifies w
    ensures Reduced(w[..]) && Value(w[..]) == old(Value(w[..])) / 2
  {
    assert Digits.Pow2(1) == 2 * Digits.Pow2(0) == 2;
    var out := ShiftRightBy(w, 1);
  }

  lemma ReducedWithin(w: seq<int>)
    requires Reduced(w)
    ensures Within(w, RADIX)
  {
    assert forall i :: 0 <= i < |w| ==> IsLimb(w[i]);
  }

  // ----- comp

  lemma RadixBits(n: nat)
    requires n == 58
    ensures Digits.Pow2(n) == RADIX
  {
    var p: nat, q: nat := 10, 29;
    assert Digits.Pow2(p) == 1024 by { assert Digits.Pow2(10) == 1024; }
    Digits.Pow2Add(p, p);
    assert Digits.Pow2(2 * p) == 0x10_0000;
    Digits.Pow2Add(2 * p, p - 1);
    assert Digits.Pow2(p) == 2 * Digits.Pow2(p - 1);
    assert Digits.Pow2(q) == 0x2000_0000;
    Digits.Pow2Add(q, q);
  }

  lemma XorLimbs(a: int, b: int)
    requires IsLimb(a) && IsLimb(b)
    ensures 0 <= Digits.Xor(a, b) < RADIX && (Digits.Xor(a, b) == 0 <==> a == b)
  {
    var n: nat :| n == 58;
    RadixBits(n);
    Digits.XorBound(a, b, n);
    Digits.XorZero(a, b);
  }

  /** `x & e` for a single bit e. */
  function AndBit(x: int, e: int): (r: int)
    requires e == 0 || e == 1
    ensures r == 0 || r == 1
  {
    if e == 1 then x % 2 else 0
  }

  /** One limb of the comparison from the top. */
  lemma CompareStep(x: int, y: int, hi: int, lo: int, a: int, b: int)
    requires IsLimb(x) && IsLimb(y) && a == x + RADIX * hi && b == y + RADIX * lo
    ensures hi > lo ==> a > b
    ensures hi < lo ==> a < b
    ensures hi == lo ==> a - b == x - y
    ensures AndBit((y - x) / RADIX, 1) == (if x > y then 1 else 0)
    ensures AndBit((Digits.Xor(y, x) - 1) / RADIX, 1) == (if x == y then 1 else 0)
  {
    XorLimbs(y, x);
  }

  /** `comp`: the sign of the difference, without branches on the limbs. */
  method Comp(a: array<int>, b: array<int>) returns (c: int)
    requires a.Length == b.Length && Reduced(a[..]) && Reduced(b[..])
    ensures c == if Value(a[..]) > Value(b[..]) then 1 else if Value(a[..]) == Value(b[..]) then 0 else -1
  {
    ghost var u, v := a[..], b[..];
    var n := a.Length;
    var gt, eq := 0, 1;
    assert u[n..] == [] && v[n..] == [];
    var i := n;
    while i > 0
      invariant 0 <= i <= n && (gt == 0 || gt == 1)
      invariant eq == if Value(u[i..]) == Value(v[i..]) then 1 else 0
      invariant gt == if Value(u[i..]) > Value(v[i..]) then 1 else 0
    {
      i := i - 1;
      assert IsLimb(u[i]) && IsLimb(v[i]) && a[i] == u[i] && b[i] == v[i];
      ValueFrom(u, i);
      ValueFrom(v, i);
      CompareStep(u[i], v[i], Value(u[i + 1..]), Value(v[i + 1..]), Value(u[i..]), Value(v[i..]));
      if AndBit(Word(b[i] - a[i]) / RADIX, eq) == 1 {
        gt := 1;
      }
      eq := AndBit((Digits.Xor(b[i], a[i]) - 1) / RADIX, eq);
    }
    assert u[0..] == u && v[0..] == v;
    c := gt + gt + eq - 1;
  }

  /** The sign bit of the top limb: one for a negative number. */
  method SignBit(w: array<int>) returns (s: int)
    requires w.Length >= 1 && Normal(w[..])
    ensures s == if Value(w[..]) < 0 then 1 else 0
  {
    TopSign(w[..]);
    s := if w[w.Length - 1] < 0 then 1 else 0;
  }
}
