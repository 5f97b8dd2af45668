/** Threshold RSA: sharing of the exponent with the factorial trick, integer Lagrange
    weights, and signatures assembled from shares (`src/core/schemes/src/rsa_schemes/common.rs`
    and `signatures/sh00.rs`). */
module ThresholdRsa {
  import opened Digits
  import opened Groups
  import opened Fields
  import opened Interpolation
  import opened Residues

  // ----- products

  lemma MulSwap(a: int, b: int, c: int)
    ensures (a * b) * c == (a * c) * b && (a * b) * c == a * (b * c)
  {
  }

  // ----- factorials

  /** `fac`. */
  function Fac(n: nat): (f: nat)
    ensures f >= 1
  {
    if n < 2 then 1
    else
      var f := Fac(n - 1);
      MulPositive(n, f);
      n * f
  }

  lemma MulPositive(a: int, b: int)
    requires a >= 1 && b >= 1
    ensures a * b >= 1
  {
  }

  lemma FacStep(n: nat)
    requires n >= 1
    ensures Fac(n) == n * Fac(n - 1)
  {
  }

  /** a! b! divides (a + b)!. */
  lemma {:induction false} FacProductDivides(a: nat, b: nat)
    ensures Divides(Fac(a) * Fac(b), Fac(a + b))
    decreases a + b
  {
    if a == 0 {
      assert Multiple(Fac(b), Fac(0) * Fac(b), 1);
    } else if b == 0 {
      assert Multiple(Fac(a), Fac(a) * Fac(0), 1);
    } else {
      FacProductDivides(a - 1, b);
      FacProductDivides(a, b - 1);
      var s :| Multiple(Fac(a + b - 1), Fac(a - 1) * Fac(b), s);
      var t :| Multiple(Fac(a + b - 1), Fac(a) * Fac(b - 1), t);
      FacStep(a);
      FacStep(b);
      FacStep(a + b);
      PascalStep(a, b, Fac(a - 1), Fac(b - 1), s, t, Fac(a + b - 1));
      assert Multiple(Fac(a + b), Fac(a) * Fac(b), s + t);
    }
  }

  lemma PascalStep(a: int, b: int, x: int, y: int, s: int, t: int, f: int)
    requires f == (x * (b * y)) * s && f == ((a * x) * y) * t
    ensures (a + b) * f == ((a * x) * (b * y)) * (s + t)
  {
    assert a * f == a * ((x * (b * y)) * s) == ((a * x) * (b * y)) * s;
    assert b * f == b * (((a * x) * y) * t) == ((a * x) * (b * y)) * t;
    assert ((a * x) * (b * y)) * (s + t) == ((a * x) * (b * y)) * s + ((a * x) * (b * y)) * t;
  }

  // ----- integer Lagrange weights

  /** The denominator: the product of i - j over the ids j other than i. */
  function Denominator(ids: seq<int>, i: int): int {
    if ids == [] then 1
    else
      var j, rest := ids[|ids| - 1], Denominator(ids[..|ids| - 1], i);
      if i != j then rest * (i - j) else rest
  }

  /** The numerator without n!: the product of -j over the ids j other than i. */
  function Numerator(ids: seq<int>, i: int): int {
    if ids == [] then 1
    else
      var j, rest := ids[|ids| - 1], Numerator(ids[..|ids| - 1], i);
      if i != j then rest * -j else rest
  }

  /** Integer division that rounds toward zero, as on the source's big integers. */
  function TruncDiv(a: int, b: int): int
    requires b != 0
  {
    var m := Magnitude(a) / Magnitude(b);
    if (a < 0) == (b < 0) then m else -m
  }

  function Magnitude(a: int): (m: nat)
    ensures a != 0 ==> m > 0
  {
    if a < 0 then -a else a
  }

  lemma TruncDivExact(b: int, k: int)
    requires b != 0
    ensures TruncDiv(b * k, b) == k
  {
    assert Magnitude(b * k) == Magnitude(b) * Magnitude(k) by {
      MagnitudeMul(b, k);
    }
    DivModUnique(Magnitude(b * k), Magnitude(b), Magnitude(k), 0);
    SignOfProduct(b, k);
  }

  lemma MagnitudeMul(b: int, k: int)
    ensures Magnitude(b * k) == Magnitude(b) * Magnitude(k)
  {
    SignOfProduct(b, k);
    if b < 0 {
      assert (-b) * k == -(b * k) && (-b) * (-k) == b * k && b * (-k) == -(b * k);
    } else {
      assert b * (-k) == -(b * k);
    }
  }

  lemma SignOfProduct(b: int, k: int)
    ensures b > 0 && k > 0 ==> b * k > 0
    ensures b < 0 && k < 0 ==> b * k > 0
    ensures b > 0 && k < 0 ==> b * k < 0
    ensures b < 0 && k > 0 ==> b * k < 0
    ensures b == 0 || k == 0 ==> b * k == 0
  {
  }

  lemma {:induction false} DenominatorNonzero(ids: seq<int>, i: int)
    ensures Denominator(ids, i) != 0
  {
    if ids != [] {
      DenominatorNonzero(ids[..|ids| - 1], i);
      SignOfProduct(Denominator(ids[..|ids| - 1], i), i - ids[|ids| - 1]);
    }
  }

  /** `lag_coeff`: twice the quotient of d Numerator by Denominator. */
  method LagCoeff(indices: seq<int>, i: int, d: int) returns (l: int)
    ensures l == RsaWeight(indices, d, i)
  {
    var ln, ld := d, 1;
    for k := 0 to |indices|
      invariant ln == d * Numerator(indices[..k], i)
      invariant ld == Denominator(indices[..k], i)
    {
      var j := indices[k];
      assert indices[..k + 1][..k] == indices[..k];
      if i != j {
        assert d * Numerator(indices[..k], i) * -j == d * (Numerator(indices[..k], i) * -j);
        ln := ln * -j;
        ld := ld * (i - j);
      }
    }
    assert indices[..|indices|] == indices;
    DenominatorNonzero(indices, i);
    ln := TruncDiv(ln, ld);
    l := ln + ln;
  }

  /** The denominator with the fact that it is never zero. */
  function NonzeroDenominator(ids: seq<int>, i: int): (d: int)
    ensures d != 0 && d == Denominator(ids, i)
  {
    DenominatorNonzero(ids, i);
    Denominator(ids, i)
  }

  // ----- exactness of the division

  /** The product of i - j over all j in 1..n other than i. */
  function FullProduct(n: nat, i: int): int {
    if n == 0 then 1 else if i == n then FullProduct(n - 1, i) else FullProduct(n - 1, i) * (i - n)
  }

  ghost predicate InRange(ids: seq<int>, n: int) {
    forall k :: 0 <= k < |ids| ==> 1 <= ids[k] <= n
  }

  function DenominatorFactor(j: int, i: int): int {
    if i != j then i - j else 1
  }

  lemma DenominatorLast(ids: seq<int>, i: int)
    requires ids != []
    ensures Denominator(ids, i) == Denominator(ids[..|ids| - 1], i) * DenominatorFactor(ids[|ids| - 1], i)
  {
  }

  /** One id can be taken out of the denominator from any position. */
  lemma {:induction false} DenominatorRemove(ids: seq<int>, k: int, i: int)
    requires 0 <= k < |ids|
    ensures Denominator(ids, i) == Denominator(ids[..k] + ids[k + 1..], i) * DenominatorFactor(ids[k], i)
  {
    var n := |ids| - 1;
    DenominatorLast(ids, i);
    if k == n {
      assert ids[..k] + ids[k + 1..] == ids[..n];
    } else {
      DenominatorRemove(ids[..n], k, i);
      var rest := ids[..k] + ids[k + 1..];
      var most := rest[..|rest| - 1];
      assert most == ids[..n][..k] + ids[..n][k + 1..] && rest[|rest| - 1] == ids[n];
      DenominatorLast(rest, i);
      MulSwap(Denominator(most, i), DenominatorFactor(ids[k], i), DenominatorFactor(ids[n], i));
    }
  }

  lemma {:induction false} DenominatorDivides(ids: seq<int>, n: nat, i: int)
    requires InRange(ids, n) && Distinct(ids)
    ensures Divides(Denominator(ids, i), FullProduct(n, i))
    decreases n
  {
    assert |ids| > 0 ==> 1 <= ids[0] <= n;
    if n == 0 {
      assert Multiple(1, 1, 1);
    } else if k :| 0 <= k < |ids| && ids[k] == n {
      var rest := ids[..k] + ids[k + 1..];
      RestInRange(ids, k, n);
      DenominatorDivides(rest, n - 1, i);
      DenominatorRemove(ids, k, i);
      ScaleDivides(Denominator(rest, i), FullProduct(n - 1, i), DenominatorFactor(n, i));
    } else {
      DenominatorDivides(ids, n - 1, i);
      DividesScaled(Denominator(ids, i), FullProduct(n - 1, i), DenominatorFactor(n, i));
    }
  }

  lemma ScaleDivides(d: int, a: int, f: int)
    requires Divides(d, a)
    ensures Divides(d * f, a * f)
  {
    var m :| Multiple(a, d, m);
    MulSwap(d, m, f);
    assert Multiple(a * f, d * f, m);
  }

  lemma DividesScaled(d: int, a: int, f: int)
    requires Divides(d, a)
    ensures Divides(d, a * f)
  {
    var m :| Multiple(a, d, m);
    MulSwap(d, m, f);
    assert Multiple(a * f, d, m * f);
  }

  lemma RestInRange(ids: seq<int>, k: int, n: nat)
    requires InRange(ids, n) && Distinct(ids) && 0 <= k < |ids| && ids[k] == n
    ensures InRange(ids[..k] + ids[k + 1..], n - 1) && Distinct(ids[..k] + ids[k + 1..])
  {
    var rest := ids[..k] + ids[k + 1..];
    forall l | 0 <= l < |rest| ensures rest[l] == ids[if l < k then l else l + 1] && rest[l] != n {
    }
  }

  lemma {:induction false} FullBelow(n: nat, i: int)
    requires n < i
    ensures FullProduct(n, i) * Fac(i - 1 - n) == Fac(i - 1)
  {
    if n > 0 {
      FullBelow(n - 1, i);
      FacStep(i - n);
      MulSwap(FullProduct(n - 1, i), i - n, Fac(i - 1 - n));
    }
  }

  function AlternatingSign(k: nat): (s: int)
    ensures s == 1 || s == -1
  {
    if k == 0 then 1 else -AlternatingSign(k - 1)
  }

  lemma {:induction false} FullAbove(n: nat, i: int)
    requires 1 <= i <= n
    ensures FullProduct(n, i) == AlternatingSign(n - i) * (Fac(i - 1) * Fac(n - i))
    decreases n
  {
    if n == i {
      FullBelow(n - 1, i);
    } else {
      FullAbove(n - 1, i);
      FacStep(n - i);
      SignStep(AlternatingSign(n - 1 - i), Fac(i - 1), Fac(n - 1 - i), n - i);
    }
  }

  lemma SignStep(s: int, p: int, f: int, d: int)
    requires s == 1 || s == -1
    ensures (s * (p * f)) * (-d) == (-s) * (p * (d * f))
  {
    MulSwap(p, f, d);
    assert p * (d * f) == (p * f) * d by {
      MulSwap(p, d, f);
    }
  }

  lemma FullDivides(n: nat, i: int)
    requires 1 <= i <= n
    ensures Divides(FullProduct(n, i), Fac(n))
  {
    FullAbove(n, i);
    FacProductDivides(i - 1, n - i);
    var p := Fac(i - 1) * Fac(n - i);
    assert i - 1 + (n - i) == n - 1;
    DividesScaled(p, Fac(n - 1), n);
    FacStep(n);
    SignDivides(AlternatingSign(n - i), p, Fac(n));
  }

  lemma SignDivides(s: int, p: int, a: int)
    requires (s == 1 || s == -1) && Divides(p, a)
    ensures Divides(s * p, a)
  {
    var m :| Multiple(a, p, m);
    assert Multiple(a, s * p, s * m) by {
      assert s == 1 ==> (s * p) * (s * m) == p * m;
      assert s == -1 ==> (s * p) * (s * m) == (-p) * (-m) == p * m;
    }
  }

  /** The division in `lag_coeff` is exact: n! Numerator is a multiple of Denominator for
      every selection of distinct ids from 1..n. */
  lemma DivisionExact(ids: seq<int>, n: nat, i: int)
    requires InRange(ids, n) && Distinct(ids) && 1 <= i <= n
    ensures Denominator(ids, i) != 0
    ensures Denominator(ids, i) * TruncDiv(Fac(n) * Numerator(ids, i), NonzeroDenominator(ids, i))
            == Fac(n) * Numerator(ids, i)
  {
    DenominatorDivides(ids, n, i);
    FullDivides(n, i);
    DenominatorNonzero(ids, i);
    var d, u := Denominator(ids, i), Numerator(ids, i);
    var s :| Multiple(FullProduct(n, i), d, s);
    var t :| Multiple(Fac(n), FullProduct(n, i), t);
    MulSwap(d, s, t);
    MulSwap(d, s * t, u);
    TruncDivExact(d, (s * t) * u);
  }

  // ----- the weights are n! times the rational Lagrange weights

  /** A field that contains the integers. */
  datatype Extension<!T(!new)> = Extension(F: Field<T>, embed: int -> T)
  {
    ghost predicate Homomorphic(a: int, b: int) {
      && F.elem(embed(a))
      && embed(a + b) == F.add(embed(a), embed(b))
      && embed(a * b) == F.mul(embed(a), embed(b))
    }

    ghost predicate Injective(a: int, b: int) {
      embed(a) == embed(b) ==> a == b
    }

    ghost predicate Lawful() {
      && F.Lawful()
      && embed(0) == F.zero && embed(1) == F.one
      && (forall a, b :: Homomorphic(a, b))
      && (forall a, b :: Injective(a, b))
    }
  }

  function RealField(): Field<real> {
    Field((a: real) => true, 0.0, 1.0, (a: real, b: real) => a + b, (a: real) => -a,
          (a: real, b: real) => a * b, (a: real) => if a == 0.0 then 0.0 else 1.0 / a)
  }

  lemma RealFieldLawful()
    ensures RealField().Lawful()
  {
    var F := RealField();
    forall a, b, c ensures F.AddAssoc(a, b, c) && F.MulAssoc(a, b, c) && F.Distrib(a, b, c) {
    }
    forall a, b ensures F.Closed(a, b) && F.AddComm(a, b) && F.MulComm(a, b) {
    }
    forall a ensures F.AddZero(a) && F.MulOne(a) && F.MulInverse(a) {
    }
  }

  /** The integers inside the reals. */
  function RealExtension(): Extension<real> {
    Extension(RealField(), (i: int) => i as real)
  }

  lemma RealExtensionLawful()
    ensures RealExtension().Lawful()
  {
    RealFieldLawful();
    var E := RealExtension();
    forall a, b ensures E.Homomorphic(a, b) && E.Injective(a, b) {
    }
  }

  function Embeds<T(!new)>(E: Extension<T>, xs: seq<int>): (rs: seq<T>)
    ensures |rs| == |xs| && forall i :: 0 <= i < |xs| ==> rs[i] == E.embed(xs[i])
  {
    seq(|xs|, i requires 0 <= i < |xs| => E.embed(xs[i]))
  }

  lemma EmbedsElem<T(!new)>(E: Extension<T>, xs: seq<int>)
    requires E.Lawful()
    ensures AllElem(E.F, Embeds(E, xs))
  {
    forall i | 0 <= i < |xs| ensures E.F.elem(Embeds(E, xs)[i]) {
      assert E.Homomorphic(xs[i], 0);
    }
  }

  lemma EmbedDifference<T(!new)>(E: Extension<T>, j: int, i: int)
    requires E.Lawful()
    ensures E.F.Sub(E.embed(j), E.embed(i)) == E.embed(j - i)
  {
    var F := E.F;
    assert E.Homomorphic(j - i, i) && E.Homomorphic(i, j) && E.Homomorphic(j, i);
    F.SubAdd(E.embed(j - i), E.embed(i));
  }

  lemma EmbedFactor<T(!new)>(E: Extension<T>, i: int, j: int)
    requires E.Lawful() && i != j
    ensures E.F.mul(E.embed(i - j), Factor(E.F, E.embed(j), E.embed(i))) == E.embed(-j)
    ensures E.F.elem(Factor(E.F, E.embed(j), E.embed(i))) && E.embed(j) != E.embed(i)
  {
    var F := E.F;
    assert E.Injective(j, i) && E.Homomorphic(j, i) && E.Homomorphic(i, j);
    FactorElem(F, E.embed(j), E.embed(i));
    EmbedDifference(E, j, i);
    var s, m := E.embed(j - i), E.embed(-1);
    assert E.Homomorphic(-1, j - i) && -1 * (j - i) == i - j;
    assert E.Homomorphic(-1, j) && E.Homomorphic(j - i, 0);
    F.Closure(s, s);
    F.MulShuffle(m, s, E.embed(j), F.inv(s));
    assert F.MulInverse(s);
    F.Closure(m, E.embed(j));
    assert F.MulOne(F.mul(m, E.embed(j)));
  }

  lemma {:induction false} WeightQuotient<T(!new)>(E: Extension<T>, ids: seq<int>, i: int)
    requires E.Lawful()
    ensures E.F.mul(E.embed(Denominator(ids, i)), Weight(E.F, Embeds(E, ids), E.embed(i))) == E.embed(Numerator(ids, i))
  {
    var F := E.F;
    if ids == [] {
      assert F.MulOne(F.one);
    } else {
      var n := |ids| - 1;
      var j, rest := ids[n], ids[..n];
      WeightQuotient(E, rest, i);
      assert Embeds(E, ids)[..n] == Embeds(E, rest);
      if i != j {
        EmbedFactor(E, i, j);
        EmbedsElem(E, rest);
        assert E.Homomorphic(i, j);
        WeightElem(F, Embeds(E, rest), E.embed(i));
        var d, u := Denominator(rest, i), Numerator(rest, i);
        assert E.Homomorphic(d, i - j) && E.Homomorphic(i - j, d) && E.Homomorphic(u, -j);
        F.MulShuffle(E.embed(d), E.embed(i - j), Weight(F, Embeds(E, rest), E.embed(i)),
                     Factor(F, E.embed(j), E.embed(i)));
      }
    }
  }

  /** Half the weight `lag_coeff` returns, for delta = n!. */
  function HalfWeight(ids: seq<int>, n: nat, i: int): int {
    TruncDiv(Fac(n) * Numerator(ids, i), NonzeroDenominator(ids, i))
  }

  lemma HalfWeightIsScaled<T(!new)>(E: Extension<T>, ids: seq<int>, n: nat, i: int)
    requires E.Lawful() && InRange(ids, n) && Distinct(ids) && 1 <= i <= n
    ensures E.embed(HalfWeight(ids, n, i)) == E.F.mul(E.embed(Fac(n)), Weight(E.F, Embeds(E, ids), E.embed(i)))
  {
    DivisionExact(ids, n, i);
    WeightQuotient(E, ids, i);
    EmbedsElem(E, ids);
    assert E.Homomorphic(i, 0);
    WeightElem(E.F, Embeds(E, ids), E.embed(i));
    ScaleWeight(E, Denominator(ids, i), HalfWeight(ids, n, i), Fac(n), Numerator(ids, i),
                Weight(E.F, Embeds(E, ids), E.embed(i)));
  }

  lemma ScaleWeight<T(!new)>(E: Extension<T>, d: int, h: int, f: int, u: int, w: T)
    requires E.Lawful() && E.F.elem(w)
    requires d != 0 && d * h == f * u && E.F.mul(E.embed(d), w) == E.embed(u)
    ensures E.embed(h) == E.F.mul(E.embed(f), w)
  {
    var F := E.F;
    assert E.Homomorphic(d, h) && E.Homomorphic(h, d) && E.Homomorphic(f, u);
    assert E.Injective(d, 0);
    var ed, ef := E.embed(d), E.embed(f);
    F.Closure(ef, w);
    assert F.MulAssoc(ed, ef, w) && F.MulComm(ed, ef) && F.MulAssoc(ef, ed, w);
    F.MulCancel(E.embed(h), F.mul(ef, w), ed);
  }

  // ----- the sharing polynomial

  /** The integer polynomial with coefficients `f`, constant term first, at `x`. */
  function LowPoly(f: seq<int>, x: int): int {
    if f == [] then 0 else f[0] + x * LowPoly(f[1..], x)
  }

  lemma {:induction false} LowPolyAppend(f: seq<int>, c: int, x: int)
    ensures LowPoly(f + [c], x) == LowPoly(f, x) + IntPow(x, |f|) * c
  {
    if f == [] {
      assert f + [c] == [c] && [c][1..] == [];
    } else {
      assert (f + [c])[1..] == f[1..] + [c] && (f + [c])[0] == f[0];
      LowPolyAppend(f[1..], c, x);
      var p, e := LowPoly(f[1..], x), IntPow(x, |f| - 1);
      assert x * (p + e * c) == x * p + (x * e) * c;
    }
  }

  function Reversed(f: seq<int>): (r: seq<int>)
    ensures |r| == |f|
  {
    if f == [] then [] else Reversed(f[1..]) + [f[0]]
  }

  lemma {:induction false} EmbedPoly<T(!new)>(E: Extension<T>, f: seq<int>, x: int)
    requires E.Lawful()
    ensures Eval(E.F, Embeds(E, Reversed(f)), E.embed(x)) == E.embed(LowPoly(f, x))
  {
    if f != [] {
      var r := Embeds(E, Reversed(f));
      assert r[..|r| - 1] == Embeds(E, Reversed(f[1..])) && r[|r| - 1] == E.embed(f[0]);
      EmbedPoly(E, f[1..], x);
      var p := LowPoly(f[1..], x);
      assert E.Homomorphic(p, x) && E.Homomorphic(p * x, f[0]);
      assert p * x + f[0] == f[0] + x * p;
    }
  }

  /** The sum of the products of weights and values. */
  function Dot(hs: seq<int>, ys: seq<int>): int
    requires |hs| == |ys|
  {
    if hs == [] then 0
    else
      var k := |hs| - 1;
      Dot(hs[..k], ys[..k]) + hs[k] * ys[k]
  }

  lemma {:induction false} DotIsScaled<T(!new)>(E: Extension<T>, hs: seq<int>, delta: T, ids: seq<T>, pts: seq<T>,
                                                ys: seq<int>)
    requires E.Lawful() && E.F.elem(delta) && AllElem(E.F, ids) && AllElem(E.F, pts)
    requires |hs| == |pts| == |ys|
    requires forall k :: 0 <= k < |hs| ==> E.embed(hs[k]) == E.F.mul(delta, Weight(E.F, ids, pts[k]))
    ensures E.embed(Dot(hs, ys)) == E.F.mul(delta, WeightedSum(E.F, ids, pts, Embeds(E, ys)))
  {
    var F := E.F;
    if pts == [] {
      F.MulZero(delta);
    } else {
      var k := |pts| - 1;
      DotIsScaled(E, hs[..k], delta, ids, pts[..k], ys[..k]);
      assert Embeds(E, ys)[..k] == Embeds(E, ys[..k]);
      EmbedsElem(E, ys);
      WeightElem(F, ids, pts[k]);
      SumElem(F, ids, pts[..k], Embeds(E, ys[..k]));
      var w, y, s := Weight(F, ids, pts[k]), E.embed(ys[k]), WeightedSum(F, ids, pts[..k], Embeds(E, ys[..k]));
      assert E.Homomorphic(Dot(hs[..k], ys[..k]), hs[k] * ys[k]) && E.Homomorphic(hs[k], ys[k]);
      F.Closure(w, y);
      assert F.MulAssoc(delta, w, y) && F.Distrib(delta, s, F.mul(w, y));
    }
  }

  /** The half weights of the points `pts` among `ids`. */
  function HalfWeights(ids: seq<int>, n: nat, pts: seq<int>): (hs: seq<int>)
    ensures |hs| == |pts| && forall k :: 0 <= k < |pts| ==> hs[k] == HalfWeight(ids, n, pts[k])
  {
    seq(|pts|, k requires 0 <= k < |pts| => HalfWeight(ids, n, pts[k]))
  }

  function Values(f: seq<int>, ids: seq<int>): (ys: seq<int>)
    ensures |ys| == |ids| && forall i :: 0 <= i < |ids| ==> ys[i] == LowPoly(f, ids[i])
  {
    seq(|ids|, i requires 0 <= i < |ids| => LowPoly(f, ids[i]))
  }

  /** Integer interpolation: the half weights recover n! times the constant term. */
  lemma IntegerInterpolation(f: seq<int>, ids: seq<int>, n: nat)
    requires InRange(ids, n) && Distinct(ids) && 0 < |f| <= |ids|
    ensures Dot(HalfWeights(ids, n, ids), Values(f, ids)) == Fac(n) * f[0]
  {
    RealExtensionLawful();
    InterpolationIn(RealExtension(), f, ids, n);
  }

  lemma InterpolationIn<T(!new)>(E: Extension<T>, f: seq<int>, ids: seq<int>, n: nat)
    requires E.Lawful() && InRange(ids, n) && Distinct(ids) && 0 < |f| <= |ids|
    ensures Dot(HalfWeights(ids, n, ids), Values(f, ids)) == Fac(n) * f[0]
  {
    var F := E.F;
    var a, xs, ys := Embeds(E, Reversed(f)), Embeds(E, ids), Values(f, ids);
    forall i, j | 0 <= i < j < |xs| ensures xs[i] != xs[j] {
      assert E.Injective(ids[i], ids[j]);
    }
    forall i | 0 <= i < |ids| ensures Eval(F, a, xs[i]) == Embeds(E, ys)[i] {
      EmbedPoly(E, f, ids[i]);
    }
    assert Evals(F, a, xs) == Embeds(E, ys);
    EmbedsElem(E, ids);
    EmbedsElem(E, Reversed(f));
    InterpolatesAtZero(F, xs, a);
    assert a[|a| - 1] == E.embed(f[0]);
    var hs := HalfWeights(ids, n, ids);
    forall k | 0 <= k < |ids| ensures E.embed(hs[k]) == F.mul(E.embed(Fac(n)), Weight(F, xs, xs[k])) {
      HalfWeightIsScaled(E, ids, n, ids[k]);
    }
    assert E.Homomorphic(Fac(n), f[0]);
    DotIsScaled(E, hs, E.embed(Fac(n)), xs, xs, ys);
    assert E.Injective(Dot(hs, ys), Fac(n) * f[0]);
  }

  // ----- dealing

  /** The share of party i: f(i) / n! modulo m. */
  function DealtShare(f: seq<int>, n: nat, m: int, i: int): int
    requires m > 0
  {
    (LowPoly(f, i) * InvMod(Fac(n), m)) % m
  }

  /** `shamir_share_rsa`: `random` holds the k - 1 random coefficients. */
  method ShamirShareRsa(d: int, random: seq<int>, n: nat, N: int, m: int, v: int)
    returns (di: seq<(int, int)>, vk: seq<int>)
    requires m > 0 && N > 1
    ensures |di| == |vk| == n
    ensures forall i :: 0 <= i < n ==> di[i] == (i + 1, DealtShare([d] + random, n, m, i + 1))
    ensures forall i :: 0 <= i < n ==> vk[i] == Units(N).Pow(v, di[i].1)
  {
    var fk := [d] + random;
    var dInv := InvMod(Fac(n), m);
    di, vk := [], [];
    for i := 0 to n
      invariant |di| == |vk| == i
      invariant forall l :: 0 <= l < i ==> di[l] == (l + 1, DealtShare(fk, n, m, l + 1))
      invariant forall l :: 0 <= l < i ==> vk[l] == Units(N).Pow(v, di[l].1)
    {
      var t := 0;
      for j := 0 to |fk|
        invariant Cong(t, LowPoly(fk[..j], i + 1), m)
      {
        assert fk[..j + 1] == fk[..j] + [fk[j]];
        LowPolyAppend(fk[..j], fk[j], i + 1);
        var power := IntPow(i + 1, j);
        ModCong(power, m);
        CongMul(power % m, power, fk[j], fk[j], m);
        ModCong((power % m) * fk[j], m);
        CongAdd(((power % m) * fk[j]) % m, power * fk[j], t, LowPoly(fk[..j], i + 1), m);
        t := ((power % m) * fk[j]) % m + t;
      }
      assert fk[..|fk|] == fk;
      CongMul(t, LowPoly(fk, i + 1), dInv, dInv, m);
      var val := (t * dInv) % m;
      vk := vk + [Units(N).Pow(v, val)];
      di := di + [(i + 1, val)];
    }
  }

  // ----- combining shares

  datatype RsaShare = RsaShare(id: int, data: int)

  /** The ids as the combiner stores them, cast to eight bits. */
  function ByteIds(shares: seq<RsaShare>): (ids: seq<int>)
    ensures |ids| == |shares| && forall i :: 0 <= i < |ids| ==> ids[i] == shares[i].id % 256
  {
    seq(|shares|, i requires 0 <= i < |shares| => shares[i].id % 256)
  }

  function RsaIds(shares: seq<RsaShare>): (ids: seq<int>)
    ensures |ids| == |shares| && forall i :: 0 <= i < |ids| ==> ids[i] == shares[i].id
  {
    seq(|shares|, i requires 0 <= i < |shares| => shares[i].id)
  }

  /** The weight that `lag_coeff` gives to point i among the ids. */
  function RsaWeight(ids: seq<int>, delta: int, i: int): int {
    2 * TruncDiv(delta * Numerator(ids, i), NonzeroDenominator(ids, i))
  }

  /** The product modulo N of the data raised to the weights of the ids. */
  function RsaProduct<G(!new)>(group: AbelianGroup<G>, ids: seq<int>, delta: int, pts: seq<int>, data: seq<G>): G
    requires |pts| == |data|
  {
    if pts == [] then group.unit
    else
      var k := |pts| - 1;
      group.op(RsaProduct(group, ids, delta, pts[..k], data[..k]),
               group.Pow(data[k], RsaWeight(ids, delta, pts[k])))
  }

  function RsaData(shares: seq<RsaShare>): (data: seq<int>)
    ensures |data| == |shares| && forall i :: 0 <= i < |data| ==> data[i] == shares[i].data
  {
    seq(|shares|, i requires 0 <= i < |shares| => shares[i].data)
  }

  /** `interpolate`: weights are taken among the ids cast to eight bits, each share under its
      own full id. */
  method InterpolateRsa(shares: seq<RsaShare>, N: int, delta: int) returns (w: int)
    requires N > 1
    ensures w == RsaProduct(Units(N), ByteIds(shares), delta, RsaIds(shares), RsaData(shares))
  {
    var ids := ByteIds(shares);
    ghost var pts, data := RsaIds(shares), RsaData(shares);
    w := 1;
    for i := 0 to |shares|
      invariant w == RsaProduct(Units(N), ids, delta, pts[..i], data[..i])
    {
      assert pts[..i + 1][..i] == pts[..i] && data[..i + 1][..i] == data[..i];
      var l := LagCoeff(ids, shares[i].id, delta);
      var wj := Units(N).Pow(shares[i].data, l);
      w := (w * wj) % N;
    }
    assert pts[..|pts|] == pts && data[..|data|] == data;
  }

  lemma {:induction false} RsaProductIsPower<G(!new)>(group: AbelianGroup<G>, c: G, ids: seq<int>, n: nat,
                                                      pts: seq<int>, ys: seq<int>, data: seq<G>)
    requires group.Lawful() && group.elem(c) && |pts| == |ys| == |data|
    requires forall i :: 0 <= i < |pts| ==> data[i] == group.Pow(c, ys[i])
    ensures RsaProduct(group, ids, Fac(n), pts, data) == group.Pow(c, 2 * Dot(HalfWeights(ids, n, pts), ys))
  {
    if pts != [] {
      var k := |pts| - 1;
      RsaProductIsPower(group, c, ids, n, pts[..k], ys[..k], data[..k]);
      var hs := HalfWeights(ids, n, pts);
      assert hs[..k] == HalfWeights(ids, n, pts[..k]);
      var h, s := hs[k], Dot(hs[..k], ys[..k]);
      group.PowMul(c, ys[k], 2 * h);
      group.PowAdd(c, 2 * s, ys[k] * (2 * h));
      TwiceSum(s, h, ys[k]);
    }
  }

  lemma TwiceSum(s: int, h: int, y: int)
    ensures 2 * s + y * (2 * h) == 2 * (s + h * y)
  {
  }

  lemma {:induction false} DotCong(hs: seq<int>, ys: seq<int>, zs: seq<int>, inverse: int, m: int)
    requires m > 0 && |hs| == |ys| == |zs|
    requires forall i :: 0 <= i < |hs| ==> Cong(zs[i], ys[i] * inverse, m)
    ensures Cong(Dot(hs, zs), Dot(hs, ys) * inverse, m)
  {
    if hs != [] {
      var k := |hs| - 1;
      DotCong(hs[..k], ys[..k], zs[..k], inverse, m);
      var h, s := hs[k], Dot(hs[..k], ys[..k]);
      CongMul(h, h, zs[k], ys[k] * inverse, m);
      CongAdd(Dot(hs[..k], zs[..k]), s * inverse, h * zs[k], h * (ys[k] * inverse), m);
      assert (s + h * ys[k]) * inverse == s * inverse + h * (ys[k] * inverse);
    }
  }

  /** Each share is the base `c` raised to the exponent dealt to its owner. */
  ghost predicate SharesOf<G(!new)>(group: AbelianGroup<G>, c: G, f: seq<int>, n: nat, m: int, ids: seq<int>,
                                    data: seq<G>) {
    && m > 0 && |ids| == |data|
    && (forall i :: 0 <= i < |ids| ==> data[i] == group.Pow(c, DealtShare(f, n, m, ids[i])))
  }

  /** Reconstruction: any shares with distinct ids in 1..n, at least as many as the polynomial
      has coefficients, combine to c^(2d), where d is the constant term and the order of c
      divides m. */
  lemma RsaReconstructs<G(!new)>(group: AbelianGroup<G>, c: G, f: seq<int>, n: nat, m: int, ids: seq<int>, data: seq<G>)
    requires group.Lawful() && group.elem(c) && m > 0 && group.Pow(c, m) == group.unit
    requires Coprime(Fac(n), m)
    requires InRange(ids, n) && Distinct(ids) && 0 < |f| <= |ids|
    requires SharesOf(group, c, f, n, m, ids, data)
    ensures RsaProduct(group, ids, Fac(n), ids, data) == group.Pow(c, 2 * f[0])
  {
    var inverse := InvMod(Fac(n), m);
    var ys := Values(f, ids);
    var zs := seq(|ids|, i requires 0 <= i < |ids| => DealtShare(f, n, m, ids[i]));
    RsaProductIsPower(group, c, ids, n, ids, zs, data);
    forall i | 0 <= i < |ids| ensures Cong(zs[i], ys[i] * inverse, m) {
      ModCong(ys[i] * inverse, m);
    }
    DotCong(HalfWeights(ids, n, ids), ys, zs, inverse, m);
    IntegerInterpolation(f, ids, n);
    var s := Dot(HalfWeights(ids, n, ids), zs);
    UnscaleCong(Fac(n), f[0], s, m);
    var k := CongWitness(2 * s, 2 * f[0], m);
    group.PowPeriod(c, m, 2 * s, 2 * f[0], k);
  }

  lemma UnscaleCong(delta: int, d: int, s: int, m: int)
    requires m > 0 && Coprime(delta, m) && Cong(s, (delta * d) * InvMod(delta, m), m)
    ensures Cong(2 * s, 2 * d, m)
  {
    var inverse := InvMod(delta, m);
    InvModCorrect(delta, m);
    CongMul(delta * inverse, 1, d, d, m);
    MulSwap(delta, d, inverse);
    CongMul(2, 2, s, d, m);
  }

  // ----- the cast of the ids to eight bits

  /** The cast is harmless exactly when every id fits in eight bits. */
  lemma CastHarmlessIff(shares: seq<RsaShare>)
    requires forall i :: 0 <= i < |shares| ==> shares[i].id >= 0
    ensures ByteIds(shares) == RsaIds(shares) <==> forall i :: 0 <= i < |shares| ==> shares[i].id <= 255
  {
    if ByteIds(shares) == RsaIds(shares) {
      forall i | 0 <= i < |shares| ensures shares[i].id <= 255 {
        assert ByteIds(shares)[i] == RsaIds(shares)[i];
      }
    }
  }

  /** In full: on any quorum whose ids are at most 255, out of any number of parties, `interpolate` returns
      c^(2d) mod N. */
  lemma AnyRsaQuorumReconstructs(N: int, c: int, f: seq<int>, n: nat, m: int, shares: seq<RsaShare>)
    requires N > 1 && Units(N).elem(c) && m > 0 && Units(N).Pow(c, m) == 1
    requires Coprime(Fac(n), m) && forall i :: 0 <= i < |shares| ==> shares[i].id <= 255
    requires InRange(RsaIds(shares), n) && Distinct(RsaIds(shares)) && 0 < |f| <= |shares|
    requires SharesOf(Units(N), c, f, n, m, RsaIds(shares), RsaData(shares))
    ensures RsaProduct(Units(N), ByteIds(shares), Fac(n), RsaIds(shares), RsaData(shares)) == Units(N).Pow(c, 2 * f[0])
  {
    UnitsLawful(N);
    forall i | 0 <= i < |shares| ensures 1 <= shares[i].id {
      assert 1 <= RsaIds(shares)[i] <= n;
    }
    CastHarmlessIff(shares);
    RsaReconstructs(Units(N), c, f, n, m, RsaIds(shares), RsaData(shares));
  }
}
