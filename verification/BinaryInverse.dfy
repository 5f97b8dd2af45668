/** Binary inversion `invmodp` of multi-limb integers (`big.rs`), proved to return the inverse that
    the extended Euclidean algorithm defines. */
module BinaryInverse {
  import opened Limbs
  import opened Reduction
  import opened LimbArithmetic
  import Residues

  // ----- what the loop keeps, on integers

  /** x is a preimage of u: x.a is congruent to u modulo p. */
  ghost predicate Tracks(x: int, u: int, a: int, p: int) {
    p > 0 && 0 <= x < p && u > 0 && Residues.Cong(x * a, u, p)
  }

  /** Nothing but one divides both. */
  ghost predicate NoCommon(u: int, v: int) {
    forall d :: d > 1 && Residues.Divides(d, u) ==> !Residues.Divides(d, v)
  }

  lemma TracksWitness(x: int, u: int, a: int, p: int) returns (k: int)
    requires Tracks(x, u, a, p)
    ensures x * a == u + p * k
  {
    k := Residues.CongWitness(x * a, u, p);
  }

  lemma TracksFrom(x: int, u: int, a: int, p: int, k: int)
    requires 0 <= x < p && u > 0 && x * a == u + p * k
    ensures Tracks(x, u, a, p)
  {
    Residues.ModShift(u, p, k);
  }

  lemma OddTimes(i: int, k: int)
    ensures (2 * i + 1) * k == 2 * (i * k) + k
  {
  }

  /** An odd factor can be taken out of a doubled equation. */
  lemma HalfProduct(p: int, k: int, m: int) returns (j: int)
    requires p % 2 == 1 && p * k == 2 * m
    ensures m == p * j
  {
    OddTimes(p / 2, k);
    j := k / 2;
    assert k == 2 * j;
    assert p * (2 * j) == 2 * (p * j);
  }

  lemma HalveIdentity(x: int, y: int, a: int, p: int, e: int, k: int, h: int)
    requires 2 * y == x + e * p && x * a == 2 * h + p * k
    ensures p * (k + e * a) == 2 * (y * a - h)
  {
    assert 2 * (y * a) == (x + e * p) * a;
    assert (x + e * p) * a == x * a + p * (e * a);
    assert p * (k + e * a) == p * k + p * (e * a);
  }

  /** Halving on both sides of the congruence, for an odd modulus. */
  lemma HalveTracks(x: int, u: int, a: int, p: int, y: int)
    requires Tracks(x, u, a, p) && p % 2 == 1 && u % 2 == 0
    requires y == (if x % 2 == 1 then x + p else x) / 2
    ensures Tracks(y, u / 2, a, p)
  {
    var e := if x % 2 == 1 then 1 else 0;
    var k := TracksWitness(x, u, a, p);
    HalveIdentity(x, y, a, p, e, k, u / 2);
    var j := HalfProduct(p, k + e * a, y * a - u / 2);
    TracksFrom(y, u / 2, a, p, j);
  }

  lemma SubtractTracks(x: int, u: int, y: int, v: int, a: int, p: int, r: int)
    requires Tracks(x, u, a, p) && Tracks(y, v, a, p) && u > v
    requires r == (if x < y then x + p else x) - y
    ensures Tracks(r, u - v, a, p)
  {
    Residues.CongAdd(x * a, u, y * a, v, p);
    assert (x - y) * a == x * a - y * a;
    if x < y {
      assert (x + p - y) * a == (x - y) * a + p * a;
      Residues.ModShift((x - y) * a, p, a);
    }
  }

  lemma HalveCommon(u: int, v: int)
    requires NoCommon(u, v) && u % 2 == 0
    ensures NoCommon(u / 2, v)
  {
    forall d | d > 1 && Residues.Divides(d, u / 2) ensures !Residues.Divides(d, v) {
      Residues.DividesLinear(d, u / 2, u / 2, 1, 1);
    }
  }

  lemma SubtractCommon(u: int, v: int)
    requires NoCommon(u, v)
    ensures NoCommon(u - v, v)
  {
    forall d | d > 1 && Residues.Divides(d, u - v) ensures !Residues.Divides(d, v) {
      if Residues.Divides(d, v) {
        Residues.DividesLinear(d, u - v, v, 1, 1);
      }
    }
  }

  lemma CommonSwap(u: int, v: int)
    requires NoCommon(u, v)
    ensures NoCommon(v, u)
  {
  }

  /** Numbers without a common divisor differ, unless both are one. */
  lemma Differ(u: int, v: int)
    requires NoCommon(u, v) && u > 0 && u == v
    ensures u == 1
  {
    assert Residues.Multiple(u, u, 1);
    assert Residues.Divides(u, u);
  }

  lemma CoprimeNoCommon(a: int, p: int)
    requires p > 0 && Residues.Coprime(a, p)
    ensures NoCommon(a % p, p)
  {
    forall d | d > 1 && Residues.Divides(d, a % p) ensures !Residues.Divides(d, p) {
      if Residues.Divides(d, p) {
        Residues.GcdGreatest(a % p, p, d);
        var j :| Residues.Multiple(1, d, j);
        Residues.UnitDivisor(d, j);
      }
    }
  }

  // ----- the loops

  /** x / 2 modulo p. */
  method HalveMod(x: array<int>, p: array<int>, t: array<int>)
    requires Modulus(p[..]) && x.Length == p.Length == t.Length && x != p && x != t && p != t
    requires Reduced(x[..]) && 0 <= Value(x[..]) < Value(p[..]) && Value(p[..]) % 2 == 1
    modifies x, t
    ensures Reduced(x[..])
    ensures Value(x[..]) == (if old(Value(x[..])) % 2 == 1 then old(Value(x[..])) + Value(p[..])
            else old(Value(x[..]))) / 2
  {
    ghost var x0 := Value(x[..]);
    Parity(x[..]);
    Ranges(p.Length - 1);
    ReducedWithin(x[..]);
    ReducedWithin(p[..]);
    Copy(t, x);
    Add(t, p, RADIX, RADIX);
    CMove(x, t, x[0] % 2);
    Norm(x);
    ReducedIff(x[..]);
    ShiftRight(x);
  }

  /** The inner loops: factors of two leave u, and x follows. */
  method StripTwos(u: array<int>, x: array<int>, p: array<int>, t: array<int>, ghost v: int, ghost a: int)
    requires Modulus(p[..]) && u.Length == x.Length == p.Length == t.Length && Value(p[..]) % 2 == 1
    requires u != x && u != p && u != t && x != p && x != t && p != t
    requires Reduced(u[..]) && Reduced(x[..]) && Tracks(Value(x[..]), Value(u[..]), a, Value(p[..]))
             && NoCommon(Value(u[..]), v)
    modifies u, x, t
    ensures Reduced(u[..]) && Reduced(x[..]) && Tracks(Value(x[..]), Value(u[..]), a, Value(p[..]))
            && NoCommon(Value(u[..]), v)
    ensures Value(u[..]) % 2 == 1 && Value(u[..]) <= old(Value(u[..]))
    ensures old(Value(u[..])) % 2 == 1 ==> Value(u[..]) == old(Value(u[..]))
  {
    ghost var p0, u0 := p[..], Value(u[..]);
    Parity(u[..]);
    while u[0] % 2 == 0
      invariant p[..] == p0 && Reduced(u[..]) && Reduced(x[..])
      invariant Tracks(Value(x[..]), Value(u[..]), a, Value(p0)) && NoCommon(Value(u[..]), v)
      invariant Value(u[..]) <= u0 && (u0 % 2 == 1 ==> Value(u[..]) == u0) && Value(u[..]) % 2 == u[0] % 2
      decreases Value(u[..])
    {
      HalveCommon(Value(u[..]), v);
      HalveTracks(Value(x[..]), Value(u[..]), a, Value(p0),
                  (if Value(x[..]) % 2 == 1 then Value(x[..]) + Value(p0) else Value(x[..])) / 2);
      ShiftRight(u);
      HalveMod(x, p, t);
      Parity(u[..]);
    }
  }

  /** u - v, and x1 - x2 modulo p. */
  method SubtractPair(u: array<int>, v: array<int>, x: array<int>, y: array<int>, p: array<int>, t: array<int>)
    requires Modulus(p[..]) && u.Length == v.Length == x.Length == y.Length == p.Length == t.Length
    requires u != v && u != x && u != y && u != p && u != t && v != x && x != y && x != p && x != t && y != t
             && p != t && v != t
    requires Reduced(u[..]) && Reduced(v[..]) && Reduced(x[..]) && Reduced(y[..]) && Value(u[..]) >= Value(v[..])
    requires 0 <= Value(x[..]) < Value(p[..]) && 0 <= Value(y[..]) < Value(p[..])
    modifies u, x, t
    ensures Reduced(u[..]) && Value(u[..]) == old(Value(u[..])) - Value(v[..])
    ensures Reduced(x[..])
    ensures Value(x[..]) == (if old(Value(x[..])) < Value(y[..]) then old(Value(x[..])) + Value(p[..])
            else old(Value(x[..]))) - Value(y[..])
  {
    ghost var u0, x0, P := Value(u[..]), Value(x[..]), Value(p[..]);
    Ranges(p.Length - 1);
    ReducedIff(u[..]);
    ReducedIff(v[..]);
    ReducedWithin(u[..]);
    ReducedWithin(v[..]);
    Sub(u, v, RADIX, RADIX);
    Norm(u);
    ReducedIff(u[..]);
    SubtractMod(x, y, p, t);
  }

  /** x - y modulo p: the modulus is added first when x is the smaller. */
  method SubtractMod(x: array<int>, y: array<int>, p: array<int>, t: array<int>)
    requires Modulus(p[..]) && x.Length == y.Length == p.Length == t.Length
    requires x != y && x != p && x != t && y != t && p != t
    requires Reduced(x[..]) && Reduced(y[..]) && 0 <= Value(x[..]) < Value(p[..]) && 0 <= Value(y[..]) < Value(p[..])
    modifies x, t
    ensures Reduced(x[..])
    ensures Value(x[..]) == (if old(Value(x[..])) < Value(y[..]) then old(Value(x[..])) + Value(p[..])
            else old(Value(x[..]))) - Value(y[..])
  {
    Ranges(p.Length - 1);
    Copy(t, x);
    ReducedWithin(x[..]);
    ReducedWithin(p[..]);
    ReducedWithin(y[..]);
    Add(t, p, RADIX, RADIX);
    var c := Comp(x, y);
    CMove(x, t, AndBit(c / 2, 1));
    Sub(x, y, 2 * RADIX, RADIX);
    Norm(x);
    ReducedIff(x[..]);
  }

  /** The two pairs of the main loop. */
  ghost predicate Pairs(u: seq<int>, v: seq<int>, x: seq<int>, y: seq<int>, a: int, p: int) {
    && Reduced(u) && Reduced(v) && Reduced(x) && Reduced(y)
    && Tracks(Value(x), Value(u), a, p) && Tracks(Value(y), Value(v), a, p) && NoCommon(Value(u), Value(v))
  }

  /** One half of the subtraction step: u > v, both odd. */
  method Step(u: array<int>, v: array<int>, x: array<int>, y: array<int>, p: array<int>, t: array<int>, ghost a: int)
    requires Modulus(p[..]) && u.Length == v.Length == x.Length == y.Length == p.Length == t.Length
    requires u != v && u != x && u != y && u != p && u != t && v != x && x != y && x != p && x != t && y != t
             && p != t && v != t
    requires Pairs(u[..], v[..], x[..], y[..], a, Value(p[..])) && Value(u[..]) > Value(v[..])
    modifies u, x, t
    ensures Pairs(u[..], v[..], x[..], y[..], a, Value(p[..]))
    ensures Value(u[..]) == old(Value(u[..])) - Value(v[..])
  {
    ghost var u0, x0 := Value(u[..]), Value(x[..]);
    SubtractCommon(u0, Value(v[..]));
    SubtractTracks(x0, u0, Value(y[..]), Value(v[..]), a, Value(p[..]),
                   (if x0 < Value(y[..]) then x0 + Value(p[..]) else x0) - Value(y[..]));
    SubtractPair(u, v, x, y, p, t);
  }

  /** Not both of them are even. */
  lemma OneOdd(u: int, v: int)
    requires NoCommon(u, v)
    ensures u % 2 == 1 || v % 2 == 1
  {
    if u % 2 == 0 && v % 2 == 0 {
      assert Residues.Multiple(u, 2, u / 2) && Residues.Multiple(v, 2, v / 2);
      assert Residues.Divides(2, u) && Residues.Divides(2, v);
    }
  }

  /** One round of the main loop: factors of two go, then the smaller is subtracted from the larger. */
  method Round(u: array<int>, v: array<int>, x: array<int>, y: array<int>, p: array<int>, t: array<int>, ghost a: int)
    requires Modulus(p[..]) && Value(p[..]) % 2 == 1
    requires u.Length == v.Length == x.Length == y.Length == p.Length == t.Length
    requires u != v && u != x && u != y && u != p && u != t && v != x && v != y && v != p && v != t
    requires x != y && x != p && x != t && y != p && y != t && p != t
    requires Pairs(u[..], v[..], x[..], y[..], a, Value(p[..])) && Value(u[..]) != 1 && Value(v[..]) != 1
    modifies u, v, x, y, t
    ensures Pairs(u[..], v[..], x[..], y[..], a, Value(p[..]))
    ensures Value(u[..]) + Value(v[..]) < old(Value(u[..]) + Value(v[..]))
  {
    ghost var p0 := p[..];
    OneOdd(Value(u[..]), Value(v[..]));
    StripTwos(u, x, p, t, Value(v[..]), a);
    CommonSwap(Value(u[..]), Value(v[..]));
    StripTwos(v, y, p, t, Value(u[..]), a);
    CommonSwap(Value(v[..]), Value(u[..]));
    if Value(u[..]) == Value(v[..]) {
      Differ(Value(u[..]), Value(v[..]));
    }
    var c := Comp(u, v);
    if c >= 0 {
      Step(u, v, x, y, p, t, a);
    } else {
      CommonSwap(Value(u[..]), Value(v[..]));
      Step(v, u, y, x, p, t, a);
      CommonSwap(Value(v[..]), Value(u[..]));
    }
  }

  lemma Starts(a: int, p: int, r: int)
    requires p > 0 && r == a % p && r != 0 && Residues.Coprime(a, p)
    ensures Tracks(1, r, a, p) && Tracks(0, p, a, p) && NoCommon(r, p)
  {
    Residues.ModCong(a, p);
    CoprimeNoCommon(a, p);
    Residues.ModShift(0, p, 1);
  }

  /** What tracks one is the inverse. */
  lemma TracksOne(x: int, a: int, p: int)
    requires Tracks(x, 1, a, p) && Residues.Coprime(a, p)
    ensures x == Residues.InvMod(a, p)
  {
    Residues.InvModCorrect(a, p);
    assert x * a == a * x;
    Residues.InverseUnique(a, x, Residues.InvMod(a, p), p);
    Residues.SmallMod(x, p);
    Residues.SmallMod(Residues.InvMod(a, p), p);
  }

  /** The main loop, from a number r = a mod p that is not zero. */
  method InvertFrom(r: array<int>, p: array<int>, ghost a: int) returns (x: array<int>)
    requires Modulus(p[..]) && Value(p[..]) % 2 == 1 && r.Length == p.Length && Reduced(r[..])
    requires Value(r[..]) == a % Value(p[..]) && Value(r[..]) != 0 && Residues.Coprime(a, Value(p[..]))
    ensures fresh(x) && x.Length == p.Length && Reduced(x[..]) && Value(x[..]) == Residues.InvMod(a, Value(p[..]))
  {
    var n := p.Length;
    var u := Clone(r);
    var v := Clone(p);
    var x1 := NewInt(1, n);
    var x2 := NewInt(0, n);
    Starts(a, Value(p[..]), Value(r[..]));
    x := InvertPairs(u, v, x1, x2, p, a);
  }

  method InvertPairs(u: array<int>, v: array<int>, x1: array<int>, x2: array<int>, p: array<int>, ghost a: int)
    returns (x: array<int>)
    requires Modulus(p[..]) && Value(p[..]) % 2 == 1 && Residues.Coprime(a, Value(p[..]))
    requires u.Length == v.Length == x1.Length == x2.Length == p.Length
    requires u != v && u != x1 && u != x2 && u != p && v != x1 && v != x2 && v != p && x1 != x2 && x1 != p && x2 != p
    requires Pairs(u[..], v[..], x1[..], x2[..], a, Value(p[..]))
    modifies u, v, x1, x2
    ensures fresh(x) && x.Length == p.Length && Reduced(x[..]) && Value(x[..]) == Residues.InvMod(a, Value(p[..]))
  {
    ghost var p0 := p[..];
    var t := NewInt(0, p.Length);
    var one := NewInt(1, p.Length);
    var cu := Comp(u, one);
    var cv := Comp(v, one);
    while cu != 0 && cv != 0
      invariant p[..] == p0 && Reduced(one[..]) && Value(one[..]) == 1
      invariant Pairs(u[..], v[..], x1[..], x2[..], a, Value(p0))
      invariant cu == (if Value(u[..]) > 1 then 1 else 0) && cv == (if Value(v[..]) > 1 then 1 else 0)
      decreases Value(u[..]) + Value(v[..])
    {
      Round(u, v, x1, x2, p, t, a);
      cu := Comp(u, one);
      cv := Comp(v, one);
    }
    x := Clone(x1);
    CMove(x, x2, AndBit(cu, 1));
    TracksOne(Value(x[..]), a, Value(p0));
  }

  /** `invmodp`: the inverse modulo an odd p, for a number coprime to it; zero for a multiple of p. */
  method InvModP(w: array<int>, p: array<int>)
    requires Modulus(p[..]) && Value(p[..]) % 2 == 1 && w != p && Operand(w[..], p.Length)
    requires Residues.Coprime(Value(w[..]), Value(p[..])) || Value(w[..]) % Value(p[..]) == 0
    modifies w
    ensures Reduced(w[..])
    ensures Value(w[..]) == if old(Value(w[..])) % Value(p[..]) == 0 then 0
            else Residues.InvMod(old(Value(w[..])), Value(p[..]))
  {
    ghost var a := Value(w[..]);
    RMod(w, p);
    var zero := IsZilch(w);
    if zero {
      return;
    }
    var x := InvertFrom(w, p, a);
    Copy(w, x);
  }
}
