/** Modular arithmetic on multi-limb integers (`big.rs`): `modmul`, `modsqr`, `powmod` and the binary
    inversion `invmodp`. */
module LimbArithmetic {
  import opened Limbs
  import opened Reduction
  import LimbProduct
  import LimbSquare
  import Digits
  import Residues

  // ----- products

  /** A product of two numbers below m fits a double-length number with a bit to spare. */
  lemma ProductFits(x: int, y: int, m: int, n: nat)
    requires n >= 1 && 0 <= x < m && 0 <= y < m && m <= Scaled(HALF, n - 1)
    ensures 0 <= x * y < Scaled(HALF, 2 * n - 1)
  {
    var h := Scaled(HALF, n - 1);
    LimbProduct.ProductBelow(x, y, h);
    ScaledTimes(HALF, n - 1, h);
    ScaledTimes(HALF, n - 1, HALF);
    assert HALF * h == h * HALF;
    LimbProduct.ScaledTwice(HALF * HALF, n - 1, n - 1);
    LimbProduct.ScaledTwice(HALF, 1, 2 * n - 2);
    ScaledMonotone(HALF * HALF, RADIX * HALF, 2 * n - 2);
    ScaledZeroPositive(HALF, 2 * n - 1);
  }

  lemma {:induction false} ScaledMonotone(x: int, y: int, k: nat)
    requires x <= y
    ensures Scaled(x, k) <= Scaled(y, k)
  {
    if k > 0 {
      ScaledMonotone(x, y, k - 1);
    }
  }

  lemma {:induction false} ScaledZeroPositive(x: int, k: nat)
    requires x > 0
    ensures Scaled(x, k) > 0
  {
    if k > 0 {
      ScaledZeroPositive(x, k - 1);
    }
  }

  /** What a modulus of n limbs must satisfy: in range, positive, one bit to spare. */
  predicate Modulus(m: seq<int>) {
    |m| >= 2 && Reduced(m) && 0 < Value(m) <= Scaled(HALF, |m| - 1)
  }

  /** A number that reductions accept. */
  predicate Operand(w: seq<int>, n: nat) {
    n >= 2 && |w| == n && Lazy(w) && 0 <= Value(w) < Scaled(HALF, n - 1)
  }

  lemma ReducedIsLazy(w: seq<int>)
    requires Reduced(w)
    ensures Lazy(w)
  {
    assert forall i :: 0 <= i < |w| ==> IsLimb(w[i]);
  }

  method Clone(x: array<int>) returns (r: array<int>)
    ensures fresh(r) && r.Length == x.Length && r[..] == x[..]
  {
    r := new int[x.Length];
    Copy(r, x);
  }

  lemma ModProduct(x: int, y: int, m: int)
    requires m > 0
    ensures ((x % m) * (y % m)) % m == (x * y) % m
  {
    Residues.ModCong(x, m);
    Residues.ModCong(y, m);
    Residues.CongMul(x % m, x, y % m, y, m);
  }

  /** `modmul`. */
  method ModMul(a1: array<int>, b1: array<int>, m: array<int>) returns (r: array<int>)
    requires Modulus(m[..]) && m.Length <= LimbProduct.MAX_LIMBS && Operand(a1[..], m.Length)
             && Operand(b1[..], m.Length)
    ensures fresh(r) && r.Length == m.Length && Reduced(r[..])
    ensures Value(r[..]) == (Value(a1[..]) * Value(b1[..])) % Value(m[..])
  {
    var a := Clone(a1);
    var b := Clone(b1);
    RMod(a, m);
    RMod(b, m);
    var d := LimbProduct.Mul(a, b);
    ProductFits(Value(a[..]), Value(b[..]), Value(m[..]), m.Length);
    ReducedIsLazy(d[..]);
    r := DMod(d, m);
    ModProduct(Value(a1[..]), Value(b1[..]), Value(m[..]));
  }

  /** `modsqr`. */
  method ModSqr(a1: array<int>, m: array<int>) returns (r: array<int>)
    requires Modulus(m[..]) && 3 <= m.Length <= LimbProduct.MAX_LIMBS && m.Length % 2 == 1 && Operand(a1[..], m.Length)
    ensures fresh(r) && r.Length == m.Length && Reduced(r[..])
    ensures Value(r[..]) == (Value(a1[..]) * Value(a1[..])) % Value(m[..])
  {
    var a := Clone(a1);
    RMod(a, m);
    var d := LimbSquare.Sqr(a);
    ProductFits(Value(a[..]), Value(a[..]), Value(m[..]), m.Length);
    ReducedIsLazy(d[..]);
    r := DMod(d, m);
    ModProduct(Value(a1[..]), Value(a1[..]), Value(m[..]));
  }

  /** `iszilch`: the limbs are combined by `or`, and only zero has a negative predecessor. */
  method IsZilch(w: array<int>) returns (z: bool)
    requires w.Length >= 1 && Reduced(w[..])
    ensures z <==> Value(w[..]) == 0
  {
    var d: nat := 0;
    ghost var u := w[..];
    for i := 0 to w.Length
      invariant d < RADIX && (d == 0 <==> forall j :: 0 <= j < i ==> u[j] == 0)
    {
      assert IsLimb(u[i]);
      OrLimbs(d, u[i]);
      d := Digits.BitOr(d, w[i]);
    }
    z := ((d - 1) / RADIX) % 2 != 0;
    ZeroLimbs(u);
  }

  lemma OrLimbs(a: int, b: int)
    requires IsLimb(a) && IsLimb(b)
    ensures 0 <= Digits.BitOr(a, b) < RADIX && (Digits.BitOr(a, b) == 0 <==> a == 0 && b == 0)
  {
    var n: nat :| n == 58;
    RadixBits(n);
    Digits.BitOrLength(a, b);
    Digits.BitLengthLeast(a, n);
    Digits.BitLengthLeast(b, n);
    Digits.BitLengthBound(Digits.BitOr(a, b));
    Digits.Pow2Monotone(Digits.BitLength(Digits.BitOr(a, b)), n);
  }

  lemma {:induction false} ZeroLimbs(w: seq<int>)
    requires Reduced(w)
    ensures Value(w) == 0 <==> forall j :: 0 <= j < |w| ==> w[j] == 0
  {
    ReducedIff(w);
    ValueFrom(w, 0);
    assert w[0..] == w && IsLimb(w[0]);
    if |w| > 1 {
      ZeroLimbs(w[1..]);
      ReducedIff(w[1..]);
      assert forall j :: 1 <= j < |w| ==> w[j] == w[1..][j - 1];
    }
  }

  // ----- powers

  lemma {:induction false} PowSquare(s: int, k: nat)
    ensures Digits.IntPow(s * s, k) == Digits.IntPow(s, 2 * k)
  {
    if k > 0 {
      PowSquare(s, k - 1);
      var p := Digits.IntPow(s, 2 * k - 2);
      assert Digits.IntPow(s, 2 * k) == s * Digits.IntPow(s, 2 * k - 1);
      assert Digits.IntPow(s, 2 * k - 1) == s * p;
      assert (s * s) * p == s * (s * p);
    }
  }

  lemma {:induction false} PowCong(x: int, y: int, k: nat, m: int)
    requires m > 0 && Residues.Cong(x, y, m)
    ensures Residues.Cong(Digits.IntPow(x, k), Digits.IntPow(y, k), m)
  {
    if k > 0 {
      PowCong(x, y, k - 1, m);
      Residues.CongMul(x, y, Digits.IntPow(x, k - 1), Digits.IntPow(y, k - 1), m);
    }
  }

  /** What the loop keeps: a.s^z is the power sought, modulo m. */
  ghost predicate Remaining(a: int, s: int, z: nat, power: int, m: int)
    requires m > 0
  {
    Residues.Cong(a * Digits.IntPow(s, z), power, m)
  }

  lemma PowSplit(s: int, z: nat)
    ensures Digits.IntPow(s, z) == (if z % 2 == 1 then s else 1) * Digits.IntPow(s * s, z / 2)
  {
    PowSquare(s, z / 2);
  }

  lemma ModTimes(a: int, b: int, r: int, m: int)
    requires m > 0 && r == a % m
    ensures Residues.Cong(r * b, a * b, m)
  {
    Residues.ModCong(a, m);
    Residues.CongMul(r, a, b, b, m);
  }

  /** Taking the low bit of the exponent into a. */
  lemma TakeBit(a: int, s: int, z: nat, power: int, m: int, a1: int)
    requires m > 0 && Remaining(a, s, z, power, m)
    requires a1 == if z % 2 == 1 then (a * s) % m else a
    ensures Residues.Cong(a1 * Digits.IntPow(s * s, z / 2), power, m)
  {
    PowSplit(s, z);
    var p := Digits.IntPow(s * s, z / 2);
    if z % 2 == 1 {
      ModTimes(a * s, p, a1, m);
      assert a * (s * p) == (a * s) * p;
    }
  }

  /** Squaring s for the remaining bits. */
  lemma TakeSquare(a: int, s: int, z: nat, power: int, m: int, s1: int)
    requires m > 0 && s1 == (s * s) % m && Residues.Cong(a * Digits.IntPow(s * s, z), power, m)
    ensures Remaining(a, s1, z, power, m)
  {
    Residues.ModCong(s * s, m);
    PowCong(s1, s * s, z, m);
    Residues.CongMul(a, a, Digits.IntPow(s1, z), Digits.IntPow(s * s, z), m);
  }

  lemma BelowModulus(w: seq<int>, m: seq<int>)
    requires Modulus(m) && |w| == |m| && Reduced(w) && Value(w) < Value(m)
    ensures Operand(w, |m|)
  {
    ReducedIff(w);
    ReducedIsLazy(w);
  }

  /** a.s mod m if the bit is set. */
  method TakeFactor(a: array<int>, s: array<int>, m: array<int>, bt: int) returns (r: array<int>)
    requires Modulus(m[..]) && m.Length <= LimbProduct.MAX_LIMBS && Operand(a[..], m.Length) && Operand(s[..], m.Length)
    requires Reduced(a[..])
    ensures fresh(r) && r.Length == m.Length && Reduced(r[..]) && Operand(r[..], m.Length)
    ensures Value(r[..]) == if bt == 1 then (Value(a[..]) * Value(s[..])) % Value(m[..]) else Value(a[..])
  {
    if bt == 1 {
      r := ModMul(a, s, m);
      BelowModulus(r[..], m[..]);
    } else {
      r := Clone(a);
    }
  }

  /** After the last bit, a is the power. */
  lemma LastBit(a1: int, s: int, z: nat, power: int, m: int)
    requires m > 0 && z / 2 == 0 && Residues.Cong(a1 * Digits.IntPow(s * s, z / 2), power, m)
    requires z == 1 ==> 0 <= a1 < m
    ensures z == 1 ==> a1 == power % m
  {
    if z == 1 {
      Residues.SmallMod(a1, m);
    }
  }

  /** The accumulator and the square between two rounds. */
  ghost predicate Between(a: array<int>, s: array<int>, m: seq<int>)
    reads a, s
  {
    Reduced(a[..]) && Operand(a[..], |m|) && Operand(s[..], |m|)
  }

  /** One round of `powmod`. */
  method PowRound(a0: array<int>, s0: array<int>, z: array<int>, m: array<int>, ghost power: int, ghost e: nat)
      returns (a: array<int>, s: array<int>, done: bool)
    requires Modulus(m[..]) && 3 <= m.Length <= LimbProduct.MAX_LIMBS && m.Length % 2 == 1
    requires z != a0 && z != s0 && z != m && z.Length == m.Length && Between(a0, s0, m[..])
    requires Reduced(z[..]) && Value(z[..]) >= 0
    requires Remaining(Value(a0[..]), Value(s0[..]), Value(z[..]), power, Value(m[..]))
    requires Value(z[..]) == 0 ==> e == 0 && Value(a0[..]) == 1
    requires Value(z[..]) > 0 ==> e > 0
    modifies z
    ensures fresh(a) && (fresh(s) || s == s0) && Between(a, s, m[..])
    ensures Reduced(z[..]) && Value(z[..]) == old(Value(z[..])) / 2 && (!done ==> Value(z[..]) > 0)
    ensures !done ==> Remaining(Value(a[..]), Value(s[..]), Value(z[..]), power, Value(m[..]))
    ensures done ==> Value(a[..]) == if e == 0 then 1 else power % Value(m[..])
  {
    ghost var k, M := Value(z[..]), Value(m[..]);
    Parity(z[..]);
    var bt := z[0] % 2;
    ShiftRight(z);
    ReducedIff(z[..]);
    a := TakeFactor(a0, s0, m, bt);
    TakeBit(Value(a0[..]), Value(s0[..]), k, power, M, Value(a[..]));
    done := IsZilch(z);
    s := s0;
    if done {
      LastBit(Value(a[..]), Value(s0[..]), k, power, M);
    } else {
      s := ModSqr(s0, m);
      TakeSquare(Value(a[..]), Value(s0[..]), k / 2, power, M, Value(s[..]));
      BelowModulus(s[..], m[..]);
    }
  }

  lemma OneInRange(n: nat)
    requires n >= 2
    ensures 1 < Scaled(HALF, n - 1)
  {
    ScaledZeroPositive(HALF, n - 2);
  }

  lemma PowerStarts(b: int, e: nat, m: int)
    requires m > 0
    ensures Remaining(1, b, e, Digits.IntPow(b, e), m)
  {
  }

  /** What `powmod` computes: 1 for a zero exponent, whatever the modulus. */
  function PowerModulo(b: int, e: nat, m: int): int
    requires m > 0
  {
    if e == 0 then 1 else Digits.IntPow(b, e) % m
  }

  /** It is the power modulo m, except for a zero exponent modulo 1. */
  lemma PowModRightIff(b: int, e: nat, m: int)
    requires m > 0
    ensures PowerModulo(b, e, m) == Digits.IntPow(b, e) % m <==> e > 0 || m > 1
  {
    if e == 0 && m > 1 {
      Residues.SmallMod(1, m);
    }
  }

  lemma PowModInput()
    ensures PowerModulo(3, 0, 1) == 1 && Digits.IntPow(3, 0) % 1 == 0
  {
  }

  /** `powmod`: base^e mod m.  A zero exponent gives 1, which is not reduced when m is 1. */
  method PowMod(base: array<int>, e1: array<int>, m: array<int>) returns (a: array<int>)
    requires Modulus(m[..]) && 3 <= m.Length <= LimbProduct.MAX_LIMBS && m.Length % 2 == 1
    requires base != m && base != e1 && Operand(base[..], m.Length) && Operand(e1[..], m.Length)
    modifies base
    ensures fresh(a) && Reduced(a[..]) && Value(base[..]) == old(Value(base[..]))
    ensures Value(a[..]) == PowerModulo(Value(base[..]), Value(e1[..]), Value(m[..]))
  {
    ghost var b, e, M := Value(base[..]), Value(e1[..]), Value(m[..]);
    ghost var power := Digits.IntPow(b, e);
    Ranges(m.Length - 1);
    Norm(base);
    ReducedIff(base[..]);
    ReducedIsLazy(base[..]);
    var z := Clone(e1);
    Norm(z);
    ReducedIff(z[..]);
    a := NewInt(1, m.Length);
    ReducedIsLazy(a[..]);
    OneInRange(m.Length);
    var s := Clone(base);
    PowerStarts(b, e, M);
    a := PowLoop(a, s, z, m, power, e);
  }

  method PowLoop(a0: array<int>, s0: array<int>, z: array<int>, m: array<int>, ghost power: int, ghost e: nat)
    returns (a: array<int>)
    requires Modulus(m[..]) && 3 <= m.Length <= LimbProduct.MAX_LIMBS && m.Length % 2 == 1
    requires z != a0 && z != s0 && z != m && z.Length == m.Length && Between(a0, s0, m[..]) && Value(a0[..]) == 1
    requires Reduced(z[..]) && Value(z[..]) == e && Remaining(1, Value(s0[..]), e, power, Value(m[..]))
    modifies z
    ensures (fresh(a) || a == a0) && Reduced(a[..]) && Value(a[..]) == if e == 0 then 1 else power % Value(m[..])
  {
    ghost var m0 := m[..];
    var s, done := s0, false;
    a := a0;
    while !done
      invariant m[..] == m0 && z != a && z != s && (fresh(a) || a == a0) && (fresh(s) || s == s0) && Between(a, s, m0)
      invariant Reduced(z[..]) && Value(z[..]) >= 0
      invariant !done ==> Remaining(Value(a[..]), Value(s[..]), Value(z[..]), power, Value(m0))
      invariant !done && Value(z[..]) == 0 ==> e == 0 && Value(a[..]) == 1
      invariant !done && Value(z[..]) > 0 ==> e > 0
      invariant done ==> Value(a[..]) == if e == 0 then 1 else power % Value(m0)
      decreases if done then 0 else 1 + Value(z[..])
    {
      a, s, done := PowRound(a, s, z, m, power, e);
    }
  }
}
