/** Shift-and-subtract reduction and division of multi-limb integers: `rmod`, `div` of `big.rs` and
    `dmod`, `div` of `dbig.rs`, proved against the integer remainder and quotient. */
module Reduction {
  import opened Limbs
  import Digits
  import Residues

  lemma TimesTwo(n: int, p: int)
    ensures n * (2 * p) == 2 * (n * p)
  {
  }

  lemma OneTime(n: int)
    ensures n * 1 == n
  {
  }

  /** A subtraction of n.p moves p to the quotient. */
  lemma MoveToQuotient(n: int, q: int, p: int)
    ensures n * (q + p) == n * q + n * p
  {
  }

  lemma MulPositive(n: int, p: int)
    requires n > 0 && p > 0
    ensures n * p >= p && n * p >= n
  {
  }

  /** A double that stays below the range of the limbs is reduced. */
  method Double(w: array<int>)
    requires w.Length >= 2 && Reduced(w[..]) && Value(w[..]) < Scaled(HALF, w.Length - 1)
    modifies w
    ensures Reduced(w[..]) && Value(w[..]) == 2 * old(Value(w[..]))
  {
    ghost var v := Value(w[..]);
    ReducedIff(w[..]);
    ShiftLeft(w);
    Ranges(w.Length - 1);
    ReducedIff(w[..]);
  }

  /** w - m if that is not negative, by a trial subtraction and a conditional move. */
  method TrialSubtract(w: array<int>, m: array<int>, r: array<int>) returns (d: int)
    requires w.Length == m.Length == r.Length >= 2 && w != m && w != r && m != r
    requires Reduced(w[..]) && Reduced(m[..])
    modifies w, r
    ensures d == if old(Value(w[..])) >= Value(m[..]) then 1 else 0
    ensures Reduced(w[..]) && Value(w[..]) == old(Value(w[..])) - (if d == 1 then Value(m[..]) else 0)
  {
    ghost var w0, m0 := w[..], m[..];
    Copy(r, w);
    ReducedWithin(r[..]);
    ReducedWithin(m[..]);
    Sub(r, m, RADIX, RADIX);
    Norm(r);
    var s := SignBit(r);
    d := 1 - s;
    ReducedIff(w0);
    ReducedIff(m0);
    ReducedIff(r[..]);
    CMove(w, r, d);
  }

  /** The first loop of `rmod` and `dmod`: the modulus is doubled until it exceeds the number. */
  method Grow(w: array<int>, m: array<int>) returns (k: nat)
    requires w.Length == m.Length >= 2 && w != m && Reduced(w[..]) && Reduced(m[..]) && Value(m[..]) > 0
    requires Value(w[..]) < Scaled(HALF, w.Length - 1)
    modifies m
    ensures Reduced(m[..]) && Value(m[..]) == old(Value(m[..])) * Digits.Pow2(k) && Value(w[..]) < Value(m[..])
  {
    ghost var n, w0 := Value(m[..]), w[..];
    OneTime(n);
    k := 0;
    var c := Comp(w, m);
    while c >= 0
      invariant w[..] == w0 && Reduced(m[..]) && Value(m[..]) > 0
      invariant Value(m[..]) == n * Digits.Pow2(k)
      invariant c >= 0 <==> Value(w0) >= Value(m[..])
      decreases Value(w0) - Value(m[..])
    {
      TimesTwo(n, Digits.Pow2(k));
      Double(m);
      k := k + 1;
      c := Comp(w, m);
    }
  }

  /** The second loop: the modulus is halved back, with a trial subtraction each time. */
  method Shrink(w: array<int>, m: array<int>, k0: nat, ghost n: int)
    requires w.Length == m.Length >= 2 && w != m && Reduced(w[..]) && Reduced(m[..]) && n > 0
    requires Value(m[..]) == n * Digits.Pow2(k0) && Value(w[..]) < Value(m[..])
    modifies w, m
    ensures Reduced(w[..]) && Value(w[..]) == old(Value(w[..])) % n
  {
    ghost var v, q := Value(w[..]), 0;
    var r := new int[w.Length];
    var k := k0;
    ReducedIff(w[..]);
    while k > 0
      invariant Reduced(w[..]) && Reduced(m[..])
      invariant Value(m[..]) == n * Digits.Pow2(k) && 0 <= Value(w[..]) < Value(m[..])
      invariant v == n * q + Value(w[..])
    {
      TimesTwo(n, Digits.Pow2(k - 1));
      MoveToQuotient(n, q, Digits.Pow2(k - 1));
      ShiftRight(m);
      var d := TrialSubtract(w, m, r);
      q := q + (if d == 1 then Digits.Pow2(k - 1) else 0);
      k := k - 1;
    }
    OneTime(n);
    Residues.DivModUnique(v, n, q, Value(w[..]));
  }

  /** `rmod`: the remainder, for a number in any lazy form. */
  method RMod(w: array<int>, n: array<int>)
    requires w.Length == n.Length >= 2 && w != n && Lazy(w[..]) && Reduced(n[..]) && Value(n[..]) > 0
    requires 0 <= Value(w[..]) < Scaled(HALF, w.Length - 1)
    modifies w
    ensures Reduced(w[..]) && Value(w[..]) == old(Value(w[..])) % Value(n[..])
  {
    ghost var v := Value(w[..]);
    var m := new int[n.Length];
    Copy(m, n);
    Norm(w);
    Ranges(w.Length - 1);
    ReducedIff(w[..]);
    var c := Comp(w, m);
    if c < 0 {
      Residues.SmallMod(v, Value(n[..]));
      return;
    }
    var k := Grow(w, m);
    Shrink(w, m, k, Value(n[..]));
  }

  // ----- numbers of double length

  lemma {:induction false} ValueZeros(w: seq<int>)
    requires forall i :: 0 <= i < |w| ==> w[i] == 0
    ensures Value(w) == 0
  {
    if w != [] {
      ValueZeros(w[1..]);
    }
  }

  lemma {:induction false} ValueExtend(w: seq<int>, z: seq<int>)
    requires forall i :: 0 <= i < |z| ==> z[i] == 0
    ensures Value(w + z) == Value(w)
  {
    if w == [] {
      assert w + z == z;
      ValueZeros(z);
    } else {
      assert (w + z)[1..] == w[1..] + z;
      ValueExtend(w[1..], z);
    }
  }

  /** `new_scopy`: a reduced number extended by zero limbs. */
  method Extend(x: array<int>, n: nat) returns (b: array<int>)
    requires x.Length >= 1 && Reduced(x[..]) && n > x.Length
    ensures b.Length == n && fresh(b) && Reduced(b[..]) && Value(b[..]) == Value(x[..])
  {
    b := new int[n](_ => 0);
    var l := x.Length;
    for i := 0 to l
      invariant b[..i] == x[..i]
      invariant forall j :: i <= j < n ==> b[j] == 0
    {
      b[i] := x[i];
      assert b[..i + 1] == b[..i] + [b[i]] && x[..i + 1] == x[..i] + [x[i]];
    }
    assert IsLimb(x[..][l - 1]);
    b[l - 1] := x[l - 1] % RADIX;
    b[l] := x[l - 1] / RADIX;
    assert b[..l] == x[..l] == x[..];
    assert b[..] == x[..] + b[l..];
    ValueExtend(x[..], b[l..]);
    forall i | 0 <= i < n ensures IsLimb(b[..][i]) {
      if i < l {
        assert b[..][i] == x[..][i];
      }
    }
  }

  /** The limbs above l are zero when the value is in the range of l limbs. */
  lemma {:induction false} HighLimbsZero(w: seq<int>, l: nat)
    requires Reduced(w) && 1 <= l <= |w| && Value(w) < Scaled(RADIX, l - 1)
    ensures Value(w[..l]) == Value(w) && Reduced(w[..l])
  {
    assert w[0..] == w;
    ValueFrom(w, 0);
    assert IsLimb(w[0]);
    ReducedIff(w);
    if l == 1 {
      assert w[..1][1..] == [];
      if |w| > 1 {
        ReducedIff(w[1..]);
      }
    } else {
      assert w[..l][1..] == w[1..][..l - 1];
      HighLimbsZero(w[1..], l - 1);
    }
  }

  /** `dmod`: the remainder of a double-length number modulo a single-length one. */
  method DMod(w: array<int>, c: array<int>) returns (b: array<int>)
    requires 2 <= c.Length < w.Length && w != c && Lazy(w[..]) && Reduced(c[..]) && Value(c[..]) > 0
    requires 0 <= Value(w[..]) < Scaled(HALF, w.Length - 1)
    modifies w
    ensures b.Length == c.Length && fresh(b) && Reduced(b[..]) && Value(b[..]) == old(Value(w[..])) % Value(c[..])
  {
    ghost var v, n := Value(w[..]), Value(c[..]);
    Norm(w);
    Ranges(w.Length - 1);
    ReducedIff(w[..]);
    ReducedIff(c[..]);
    var m := Extend(c, w.Length);
    var less := Comp(w, m);
    if less < 0 {
      Residues.SmallMod(v, n);
    } else {
      var k := Grow(w, m);
      Shrink(w, m, k, n);
    }
    b := new int[c.Length](i requires 0 <= i < c.Length reads w => w[i]);
    assert b[..] == w[..][..c.Length];
    HighLimbsZero(w[..], c.Length);
  }

  // ----- division

  /** The first loop of both divisions: the divisor and the unit are doubled together. */
  method GrowPair(b: array<int>, m: array<int>, e: array<int>) returns (k: nat)
    requires b.Length == m.Length >= 2 && e.Length >= 2 && b != m && b != e && m != e
    requires Reduced(b[..]) && Reduced(m[..]) && Reduced(e[..]) && Value(m[..]) > 0 && Value(e[..]) == 1
    requires Value(b[..]) < Scaled(HALF, b.Length - 1) && Value(b[..]) < Value(m[..]) * Scaled(HALF, e.Length - 1)
    modifies m, e
    ensures Reduced(m[..]) && Value(m[..]) == old(Value(m[..])) * Digits.Pow2(k) && Value(b[..]) < Value(m[..])
    ensures Reduced(e[..]) && Value(e[..]) == Digits.Pow2(k)
  {
    ghost var n, b0 := Value(m[..]), b[..];
    OneTime(n);
    k := 0;
    var c := Comp(b, m);
    while c >= 0
      invariant b[..] == b0 && Reduced(m[..]) && Value(m[..]) > 0 && Reduced(e[..])
      invariant Value(m[..]) == n * Digits.Pow2(k) && Value(e[..]) == Digits.Pow2(k)
      invariant c >= 0 <==> Value(b0) >= Value(m[..])
      decreases Value(b0) - Value(m[..])
    {
      TimesTwo(n, Digits.Pow2(k));
      CancelLess(n, Digits.Pow2(k), Scaled(HALF, e.Length - 1));
      Double(e);
      Double(m);
      k := k + 1;
      c := Comp(b, m);
    }
  }

  lemma CancelLess(n: int, p: int, q: int)
    requires n > 0 && n * p < n * q
    ensures p < q
  {
    assert n * (q - p) == n * q - n * p;
    Residues.MulBounds(n, q - p);
  }

  /** The second loop: every successful trial subtraction adds the unit to the quotient. */
  method ShrinkPair(b: array<int>, m: array<int>, e: array<int>, a: array<int>, k0: nat, ghost n: int)
    requires b.Length == m.Length >= 2 && a.Length == e.Length >= 2
    requires b != m && b != e && b != a && m != e && m != a && e != a
    requires Reduced(b[..]) && Reduced(m[..]) && Reduced(e[..]) && Reduced(a[..]) && n > 0
    requires Value(m[..]) == n * Digits.Pow2(k0) && Value(e[..]) == Digits.Pow2(k0) && Value(a[..]) == 0
    requires Value(b[..]) < Value(m[..])
    modifies b, m, e, a
    ensures Reduced(a[..]) && Value(a[..]) == old(Value(b[..])) / n
  {
    ghost var v := Value(b[..]);
    var dr, r := new int[b.Length], new int[a.Length];
    var k := k0;
    ReducedIff(b[..]);
    ReducedIff(e[..]);
    while k > 0
      invariant Reduced(b[..]) && Reduced(m[..]) && Reduced(e[..]) && Reduced(a[..])
      invariant Value(m[..]) == n * Digits.Pow2(k) && Value(e[..]) == Digits.Pow2(k)
      invariant 0 <= Value(b[..]) < Value(m[..])
      invariant 0 <= Value(a[..]) && Value(a[..]) + Digits.Pow2(k) <= Digits.Pow2(k0)
      invariant v == n * Value(a[..]) + Value(b[..])
    {
      TimesTwo(n, Digits.Pow2(k - 1));
      DivideStep(b, m, e, a, dr, r, n, Digits.Pow2(k - 1), Digits.Pow2(k0), v);
      k := k - 1;
    }
    OneTime(n);
    Residues.DivModUnique(v, n, Value(a[..]), Value(b[..]));
  }

  /** One step of the second loop: divisor and unit are halved, and if the divisor can be subtracted
      the unit is added to the quotient. */
  method DivideStep(b: array<int>, m: array<int>, e: array<int>, a: array<int>, dr: array<int>, r: array<int>,
                    ghost n: int, ghost p: int, ghost limit: int, ghost v: int)
    requires b.Length == m.Length == dr.Length >= 2 && a.Length == e.Length == r.Length >= 2
    requires b != m && b != e && b != a && m != e && m != a && e != a
    requires dr != b && dr != m && dr != e && dr != a && r != b && r != m && r != e && r != a && r != dr
    requires Reduced(b[..]) && Reduced(m[..]) && Reduced(e[..]) && Reduced(a[..]) && n > 0 && p >= 1
    requires Value(m[..]) == 2 * (n * p) && Value(e[..]) == 2 * p && 0 <= Value(b[..]) < Value(m[..])
    requires 0 <= Value(a[..]) && Value(a[..]) + 2 * p <= limit <= Scaled(RADIX, a.Length - 1)
             && v == n * Value(a[..]) + Value(b[..])
    modifies b, m, e, a, dr, r
    ensures Reduced(b[..]) && Reduced(m[..]) && Reduced(e[..]) && Reduced(a[..])
    ensures Value(m[..]) == n * p && Value(e[..]) == p && 0 <= Value(b[..]) < Value(m[..])
    ensures 0 <= Value(a[..]) && Value(a[..]) + p <= limit && v == n * Value(a[..]) + Value(b[..])
  {
    MoveToQuotient(n, Value(a[..]), p);
    ShiftRight(m);
    ShiftRight(e);
    var d := TrialSubtract(b, m, dr);
    AddUnit(a, e, r, d, limit);
  }

  /** a + e if d is one, by an addition and a conditional move. */
  method AddUnit(a: array<int>, e: array<int>, r: array<int>, d: int, ghost limit: int)
    requires a.Length == e.Length == r.Length >= 2 && a != e && a != r && e != r && (d == 0 || d == 1)
    requires Reduced(a[..]) && Reduced(e[..]) && limit <= Scaled(RADIX, a.Length - 1)
    requires Value(a[..]) + Value(e[..]) < limit
    modifies a, r
    ensures Reduced(a[..]) && Value(a[..]) == old(Value(a[..])) + (if d == 1 then Value(e[..]) else 0)
  {
    ReducedIff(a[..]);
    ReducedIff(e[..]);
    Copy(r, a);
    ReducedWithin(r[..]);
    ReducedWithin(e[..]);
    Add(r, e, RADIX, RADIX);
    Norm(r);
    ReducedIff(r[..]);
    CMove(a, r, d);
  }

  /** `new_int`, for a number that fits one limb. */
  method NewInt(x: int, n: nat) returns (b: array<int>)
    requires n >= 1 && IsLimb(x)
    ensures b.Length == n && fresh(b) && Reduced(b[..]) && Value(b[..]) == x
  {
    b := new int[n](_ => 0);
    b[0] := x;
    assert b[..][1..] == b[1..];
    ValueZeros(b[1..]);
  }

  /** `div` of a single-length number by another, in place: the quotient rounded down. */
  method Div(w: array<int>, n: array<int>)
    requires w.Length == n.Length >= 2 && w != n && Lazy(w[..]) && Reduced(n[..]) && Value(n[..]) > 0
    requires 0 <= Value(w[..]) < Scaled(HALF, w.Length - 1)
    modifies w
    ensures Reduced(w[..]) && Value(w[..]) == old(Value(w[..])) / Value(n[..])
  {
    ghost var v := Value(w[..]);
    var l := w.Length;
    Norm(w);
    Ranges(l - 1);
    ReducedIff(w[..]);
    var e := NewInt(1, l);
    var b, m := new int[l], new int[l];
    Copy(b, w);
    Copy(m, n);
    var zero := NewInt(0, l);
    Copy(w, zero);
    MulPositive(Value(n[..]), Scaled(HALF, l - 1));
    var k := GrowPair(b, m, e);
    ShrinkPair(b, m, e, w, k, Value(n[..]));
  }

  /** `div` of a double-length number by a single-length one; the quotient must have room in a
      single-length number. */
  method DDiv(w: array<int>, c: array<int>) returns (a: array<int>)
    requires 2 <= c.Length < w.Length && w != c && Lazy(w[..]) && Reduced(c[..]) && Value(c[..]) > 0
    requires 0 <= Value(w[..]) < Scaled(HALF, w.Length - 1)
    requires Value(w[..]) < Value(c[..]) * Scaled(HALF, c.Length - 1)
    modifies w
    ensures a.Length == c.Length && fresh(a) && Reduced(a[..]) && Value(a[..]) == old(Value(w[..])) / Value(c[..])
  {
    var m := Extend(c, w.Length);
    a := NewInt(0, c.Length);
    var e := NewInt(1, c.Length);
    Norm(w);
    Ranges(w.Length - 1);
    ReducedIff(w[..]);
    var k := GrowPair(w, m, e);
    ShrinkPair(w, m, e, a, k, Value(c[..]));
  }
}
