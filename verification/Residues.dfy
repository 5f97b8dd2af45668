/** Residues modulo an integer: extended Euclid, inverses, the field of residues modulo a
    prime and the group of units modulo any N. */
module Residues {
  import opened Fields
  import opened Groups

  // ----- Euclidean division

  lemma MulBounds(n: int, j: int)
    requires n > 0
    ensures j >= 1 ==> n * j >= n
    ensures j <= -1 ==> n * j <= -n
    ensures j <= 0 ==> n * j <= 0
  {
  }

  lemma DivModUnique(a: int, n: int, k: int, r: int)
    requires n > 0 && 0 <= r < n && a == n * k + r
    ensures a % n == r && a / n == k
  {
    var j := a / n - k;
    assert n * j == n * (a / n) - n * k;
    assert n * j == r - a % n;
    MulBounds(n, j);
  }

  lemma ModShift(a: int, n: int, k: int)
    requires n > 0
    ensures (a + n * k) % n == a % n
  {
    assert a + n * k == n * (a / n + k) + a % n;
    DivModUnique(a + n * k, n, a / n + k, a % n);
  }

  ghost predicate Cong(a: int, b: int, n: int)
    requires n > 0
  {
    a % n == b % n
  }

  lemma CongWitness(a: int, b: int, n: int) returns (k: int)
    requires n > 0 && Cong(a, b, n)
    ensures a == b + n * k
  {
    k := a / n - b / n;
    assert n * k == n * (a / n) - n * (b / n);
  }

  lemma CongFrom(a: int, b: int, n: int, k: int)
    requires n > 0 && a == b + n * k
    ensures Cong(a, b, n)
  {
    ModShift(b, n, k);
  }

  lemma CongAdd(a: int, b: int, c: int, d: int, n: int)
    requires n > 0 && Cong(a, b, n) && Cong(c, d, n)
    ensures Cong(a + c, b + d, n) && Cong(a - c, b - d, n)
  {
    var k := CongWitness(a, b, n);
    var j := CongWitness(c, d, n);
    Distribute(n, k, j);
    CongFrom(a + c, b + d, n, k + j);
    CongFrom(a - c, b - d, n, k - j);
  }

  lemma Distribute(n: int, k: int, j: int)
    ensures n * (k + j) == n * k + n * j && n * (k - j) == n * k - n * j
  {
  }

  lemma ScaleShift(b: int, n: int, k: int, c: int)
    ensures (b + n * k) * c == b * c + n * (k * c)
  {
  }

  lemma CongScale(a: int, b: int, c: int, n: int)
    requires n > 0 && Cong(a, b, n)
    ensures Cong(a * c, b * c, n)
  {
    var k := CongWitness(a, b, n);
    ScaleShift(b, n, k, c);
    CongFrom(a * c, b * c, n, k * c);
  }

  lemma CongMul(a: int, b: int, c: int, d: int, n: int)
    requires n > 0 && Cong(a, b, n) && Cong(c, d, n)
    ensures Cong(a * c, b * d, n)
  {
    CongScale(a, b, c, n);
    CongScale(c, d, b, n);
    assert c * b == b * c && d * b == b * d;
  }

  lemma ModCong(a: int, n: int)
    requires n > 0
    ensures Cong(a % n, a, n)
  {
    DivModUnique(a % n, n, 0, a % n);
  }

  lemma SmallMod(a: int, n: int)
    requires 0 <= a < n
    ensures a % n == a
  {
    DivModUnique(a, n, 0, a);
  }

  // ----- greatest common divisors and extended Euclid

  ghost predicate Multiple(a: int, d: int, k: int) {
    a == d * k
  }

  ghost predicate Divides(d: int, a: int) {
    exists k :: Multiple(a, d, k)
  }

  lemma DividesLinear(d: int, a: int, b: int, s: int, t: int)
    requires Divides(d, a) && Divides(d, b)
    ensures Divides(d, a * s + b * t)
  {
    var j :| Multiple(a, d, j);
    var k :| Multiple(b, d, k);
    assert (d * j) * s == d * (j * s) && (d * k) * t == d * (k * t);
    assert Multiple(a * s + b * t, d, j * s + k * t);
  }

  function Gcd(x: nat, y: nat): nat
    decreases x
  {
    if x == 0 then y else Gcd(y % x, x)
  }

  lemma {:induction false} GcdDivides(x: nat, y: nat)
    ensures Divides(Gcd(x, y), x) && Divides(Gcd(x, y), y)
    decreases x
  {
    if x == 0 {
      assert Multiple(0, y, 0) && Multiple(y, y, 1);
    } else {
      GcdDivides(y % x, x);
      var d := Gcd(x, y);
      DividesLinear(d, y % x, x, 1, y / x);
      assert (y % x) * 1 + x * (y / x) == y;
    }
  }

  lemma EuclidStep(x: int, q: int, r: int, y: int, x1: int, y1: int)
    requires y == x * q + r
    ensures (y1 - q * x1) * x + x1 * y == x1 * r + y1 * x
  {
    assert x1 * (x * q + r) == x1 * (x * q) + x1 * r;
    assert (q * x1) * x == x1 * (x * q);
  }

  /** Coefficients (a, b) with a x + b y = gcd(x, y), by the recursion of `ext_euclid`. */
  function ExtEuclid(x: nat, y: nat): (c: (int, int))
    ensures c.0 * x + c.1 * y == Gcd(x, y)
    decreases x
  {
    if x == 0 then (0, 1)
    else
      var (x1, y1) := ExtEuclid(y % x, x);
      var a := y1 - (y / x) * x1;
      EuclidStep(x, y / x, y % x, y, x1, y1);
      (a, x1)
  }

  /** The result of `ext_euclid` is a greatest common divisor: every common divisor divides it. */
  lemma GcdGreatest(x: nat, y: nat, d: int)
    requires Divides(d, x) && Divides(d, y)
    ensures Divides(d, Gcd(x, y))
  {
    var (a, b) := ExtEuclid(x, y);
    DividesLinear(d, x, y, a, b);
    assert x * a == a * x && y * b == b * y;
  }

  // ----- inverses

  ghost predicate Coprime(a: int, n: int)
    requires n > 0
  {
    Gcd(a % n, n) == 1
  }

  /** The inverse of `a` modulo `n` when there is one. */
  function InvMod(a: int, n: int): (i: int)
    requires n > 0
    ensures 0 <= i < n
  {
    ExtEuclid(a % n, n).0 % n
  }

  lemma InvModCorrect(a: int, n: int)
    requires n > 0 && Coprime(a, n)
    ensures Cong(a * InvMod(a, n), 1, n)
  {
    var (s, t) := ExtEuclid(a % n, n);
    assert s * (a % n) + t * n == 1;
    ModCong(s, n);
    ModCong(a, n);
    CongMul(a, a % n, s % n, s, n);
    assert (a % n) * s == 1 + n * (-t) by {
      assert n * (-t) == -(t * n);
      assert (a % n) * s == s * (a % n);
    }
    ModShift(1, n, -t);
  }

  lemma CoprimeFromInverse(a: int, b: int, n: int)
    requires n > 0 && Cong(a * b, 1, n)
    ensures Coprime(a, n)
  {
    var x := a % n;
    var d := Gcd(x, n);
    GcdDivides(x, n);
    ModCong(a, n);
    CongMul(x, a, b, b, n);
    var k := CongWitness(x * b, 1, n);
    DividesLinear(d, x, n, b, -k);
    assert n * (-k) == -(n * k);
    assert Divides(d, 1);
    var j :| Multiple(1, d, j);
    UnitDivisor(d, j);
  }

  lemma UnitDivisor(d: nat, j: int)
    requires d * j == 1
    ensures d == 1
  {
    if d != 0 {
      MulBounds(d, j);
    }
  }

  /** Inverses modulo n are unique, so any inversion algorithm returns `InvMod`. */
  lemma InverseUnique(a: int, b: int, c: int, n: int)
    requires n > 0 && Cong(a * b, 1, n) && Cong(a * c, 1, n)
    ensures Cong(b, c, n)
  {
    CongMul(a * b, 1, c, c, n);
    CongMul(a * c, 1, b, b, n);
    assert (a * b) * c == (a * c) * b;
  }

  // ----- primes and the field of residues

  ghost predicate Prime(q: int) {
    q >= 2 && forall d :: 1 < d < q ==> !Divides(d, q)
  }

  lemma PrimeCoprime(a: int, q: int)
    requires Prime(q) && a % q != 0
    ensures Coprime(a, q)
  {
    var x := a % q;
    var d := Gcd(x, q);
    GcdDivides(x, q);
    var j :| Multiple(x, d, j);
    assert d != 0;
    MulBounds(d, j);
    assert 1 <= d <= x < q;
  }

  function ModField(q: int): Field<int>
    requires q > 0
  {
    Field((a: int) => 0 <= a < q, 0, 1 % q,
          (a: int, b: int) => (a + b) % q, (a: int) => (-a) % q,
          (a: int, b: int) => (a * b) % q, (a: int) => InvMod(a, q))
  }

  lemma ModAssoc(a: int, b: int, c: int, n: int)
    requires n > 0
    ensures ((a + b) % n + c) % n == (a + (b + c) % n) % n
    ensures ((a * b) % n * c) % n == (a * ((b * c) % n)) % n
    ensures (a * ((b + c) % n)) % n == ((a * b) % n + (a * c) % n) % n
  {
    ModCong(a + b, n);
    ModCong(b + c, n);
    CongAdd((a + b) % n, a + b, c, c, n);
    CongAdd(a, a, (b + c) % n, b + c, n);
    ModCong(a * b, n);
    ModCong(b * c, n);
    ModCong(a * c, n);
    CongMul((a * b) % n, a * b, c, c, n);
    CongMul(a, a, (b * c) % n, b * c, n);
    assert (a * b) * c == a * (b * c);
    CongMul(a, a, (b + c) % n, b + c, n);
    CongAdd((a * b) % n, a * b, (a * c) % n, a * c, n);
    assert a * (b + c) == a * b + a * c;
  }

  lemma ModFieldLaws(q: int, a: int, b: int, c: int)
    requires Prime(q)
    ensures var F := ModField(q);
            && F.Closed(a, b) && F.AddAssoc(a, b, c) && F.AddComm(a, b) && F.AddZero(a)
            && F.MulAssoc(a, b, c) && F.MulComm(a, b) && F.MulOne(a) && F.MulInverse(a) && F.Distrib(a, b, c)
  {
    ModAssoc(a, b, c, q);
    SmallMod(1, q);
    if 0 <= a < q {
      SmallMod(a, q);
      ModCong(-a, q);
      CongAdd(a, a, (-a) % q, -a, q);
      SmallMod(0, q);
      if a != 0 {
        PrimeCoprime(a, q);
        InvModCorrect(a, q);
      }
    }
    assert a * b == b * a;
  }

  lemma ModFieldLawful(q: int)
    requires Prime(q)
    ensures ModField(q).Lawful()
  {
    var F := ModField(q);
    SmallMod(1, q);
    forall a, b, c
      ensures F.Closed(a, b) && F.AddAssoc(a, b, c) && F.AddComm(a, b) && F.AddZero(a)
      ensures F.MulAssoc(a, b, c) && F.MulComm(a, b) && F.MulOne(a) && F.MulInverse(a) && F.Distrib(a, b, c)
    {
      ModFieldLaws(q, a, b, c);
    }
    forall a, b ensures F.Closed(a, b) && F.AddComm(a, b) && F.MulComm(a, b) {
      ModFieldLaws(q, a, b, 0);
    }
    forall a ensures F.AddZero(a) && F.MulOne(a) && F.MulInverse(a) {
      ModFieldLaws(q, a, 0, 0);
    }
  }

  // ----- the group of units modulo N

  function Units(N: int): AbelianGroup<int>
    requires N > 1
  {
    AbelianGroup((a: int) => 0 <= a < N && Gcd(a % N, N) == 1, 1,
                 (a: int, b: int) => (a * b) % N, (a: int) => InvMod(a, N))
  }

  lemma UnitsClosed(N: int, a: int, b: int)
    requires N > 1
    ensures Units(N).Closed(a, b) && Units(N).Inverse(a) && Units(N).Unit(a)
  {
    var G := Units(N);
    if G.elem(a) {
      SmallMod(a, N);
      SmallMod(1, N);
      var i := InvMod(a, N);
      InvModCorrect(a, N);
      assert i * a == a * i;
      CoprimeFromInverse(i, a, N);
      if G.elem(b) {
        var j := InvMod(b, N);
        InvModCorrect(b, N);
        ProductOfUnits(a, b, i, j, N);
      }
    }
  }

  lemma ProductOfUnits(a: int, b: int, i: int, j: int, N: int)
    requires N > 1 && Cong(a * i, 1, N) && Cong(b * j, 1, N)
    ensures Coprime((a * b) % N, N)
  {
    CongMul(a * i, 1, b * j, 1, N);
    assert (a * i) * (b * j) == (a * b) * (i * j);
    ModCong(a * b, N);
    CongMul((a * b) % N, a * b, i * j, i * j, N);
    CoprimeFromInverse((a * b) % N, i * j, N);
  }

  lemma UnitsLawful(N: int)
    requires N > 1
    ensures Units(N).Lawful()
  {
    var G := Units(N);
    SmallMod(1, N);
    CoprimeFromInverse(1, 1, N);
    forall a, b, c ensures G.Assoc(a, b, c) {
      ModAssoc(a, b, c, N);
    }
    forall a, b ensures G.Closed(a, b) && G.Comm(a, b) {
      UnitsClosed(N, a, b);
      assert a * b == b * a;
    }
    forall a ensures G.Unit(a) && G.Inverse(a) {
      UnitsClosed(N, a, 0);
    }
  }
}
