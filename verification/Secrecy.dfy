/** Fewer shares than the threshold say nothing about the secret: in every field, any k - 1 shares and any candidate
    secret belong to exactly one choice of the k - 1 random coefficients.  The sharing of bytes
    (`src/core/schemes/mcore/src/share.rs`) and the sharing modulo a group order
    (`src/core/schemes/src/dl_schemes/common.rs`) are instances. */
module Secrecy {
  import opened Fields
  import opened Interpolation
  import Residues
  import DlSharing
  import opened ByteSharing

  // ----- multiplication by a linear factor

  /** The coefficients of (x - c) q + d. */
  function TimesLinear<T(!new)>(F: Field<T>, q: seq<T>, c: T, d: T): (p: seq<T>)
    ensures |p| == |q| + 1
  {
    if q == [] then [d]
    else
      var n := |q| - 1;
      TimesLinear(F, q[..n], c, q[n]) + [F.Sub(d, F.mul(c, q[n]))]
  }

  lemma {:induction false} TimesLinearElem<T(!new)>(F: Field<T>, q: seq<T>, c: T, d: T)
    requires F.Lawful() && AllElem(F, q) && F.elem(c) && F.elem(d)
    ensures AllElem(F, TimesLinear(F, q, c, d))
  {
    if q != [] {
      var n := |q| - 1;
      TimesLinearElem(F, q[..n], c, q[n]);
      F.Closure(c, q[n]);
      F.Closure(d, F.mul(c, q[n]));
    }
  }

  /** ((x - c) v + e) x + (d - c e) = (x - c) (v x + e) + d. */
  lemma LinearStep<T(!new)>(F: Field<T>, x: T, c: T, v: T, e: T, d: T)
    requires F.Lawful() && F.elem(x) && F.elem(c) && F.elem(v) && F.elem(e) && F.elem(d)
    ensures F.add(F.mul(F.add(F.mul(F.Sub(x, c), v), e), x), F.Sub(d, F.mul(c, e)))
         == F.add(F.mul(F.Sub(x, c), F.add(F.mul(v, x), e)), d)
  {
    var s := F.Sub(x, c);
    F.Closure(x, c);
    F.Closure(s, v);
    F.Closure(v, x);
    F.Closure(c, e);
    F.Closure(s, e);
    F.Closure(x, e);
    var sv, vx, ce, se := F.mul(s, v), F.mul(v, x), F.mul(c, e), F.mul(s, e);
    F.Closure(s, vx);
    F.Closure(d, ce);
    calc {
      F.mul(F.add(sv, e), x);
      { F.Closure(sv, e); assert F.MulComm(F.add(sv, e), x) && F.Distrib(x, sv, e) && F.MulComm(x, sv); }
      F.add(F.mul(sv, x), F.mul(x, e));
      { assert F.MulAssoc(s, v, x); F.SplitMul(x, c, e); }
      F.add(F.mul(s, vx), F.add(se, ce));
    }
    Rearrange(F, F.mul(s, vx), se, ce, d);
    assert F.Distrib(s, vx, e);
  }

  /** (a + (b + c)) + (d - c) = (a + b) + d. */
  lemma Rearrange<T(!new)>(F: Field<T>, a: T, b: T, c: T, d: T)
    requires F.Lawful() && F.elem(a) && F.elem(b) && F.elem(c) && F.elem(d)
    ensures F.add(F.add(a, F.add(b, c)), F.Sub(d, c)) == F.add(F.add(a, b), d)
  {
    F.Closure(a, b);
    F.Closure(d, c);
    F.SubAdd(d, c);
    var ab, s := F.add(a, b), F.Sub(d, c);
    assert F.AddAssoc(a, b, c) && F.AddAssoc(ab, c, s) && F.AddComm(c, s);
  }

  lemma {:induction false} TimesLinearValue<T(!new)>(F: Field<T>, q: seq<T>, c: T, d: T, x: T)
    requires F.Lawful() && AllElem(F, q) && F.elem(c) && F.elem(d) && F.elem(x)
    ensures Eval(F, TimesLinear(F, q, c, d), x) == F.add(F.mul(F.Sub(x, c), Eval(F, q, x)), d)
  {
    F.Closure(x, c);
    var p := TimesLinear(F, q, c, d);
    if q == [] {
      assert p[..0] == [];
      F.MulZero(x);
      F.MulZero(F.Sub(x, c));
    } else {
      var n := |q| - 1;
      TimesLinearValue(F, q[..n], c, q[n], x);
      assert p[..|p| - 1] == TimesLinear(F, q[..n], c, q[n]);
      EvalElem(F, q[..n], x);
      LinearStep(F, x, c, Eval(F, q[..n], x), q[n], d);
    }
  }

  // ----- a polynomial through given points

  /** The slope from (c, d) to (x, y). */
  function Slope<T(!new)>(F: Field<T>, c: T, d: T, x: T, y: T): T {
    F.mul(F.Sub(y, d), F.inv(F.Sub(x, c)))
  }

  lemma SlopeMeets<T(!new)>(F: Field<T>, c: T, d: T, x: T, y: T)
    requires F.Lawful() && F.elem(c) && F.elem(d) && F.elem(x) && F.elem(y) && x != c
    ensures F.elem(Slope(F, c, d, x, y)) && F.add(F.mul(F.Sub(x, c), Slope(F, c, d, x, y)), d) == y
  {
    FactorElem(F, x, c);
    F.Closure(x, c);
    F.Closure(y, d);
    var s, r := F.Sub(x, c), F.Sub(y, d);
    F.Closure(s, r);
    var i := F.inv(s);
    F.Closure(r, i);
    assert F.MulComm(r, i) && F.MulAssoc(s, i, r) && F.MulInverse(s) && F.MulComm(F.one, r) && F.MulOne(r);
    F.SubAdd(y, d);
  }

  ghost predicate Through<T(!new)>(F: Field<T>, a: seq<T>, xs: seq<T>, ys: seq<T>) {
    |a| == |xs| == |ys| && AllElem(F, a) && forall i :: 0 <= i < |xs| ==> Eval(F, a, xs[i]) == ys[i]
  }

  /** Through points with distinct abscissas there is a polynomial with as many coefficients as points. */
  lemma {:induction false} Interpolant<T(!new)>(F: Field<T>, xs: seq<T>, ys: seq<T>) returns (a: seq<T>)
    requires F.Lawful() && AllElem(F, xs) && AllElem(F, ys) && Distinct(xs) && |xs| == |ys|
    ensures Through(F, a, xs, ys)
  {
    if xs == [] {
      a := [];
    } else {
      var n := |xs| - 1;
      var c, d := xs[n], ys[n];
      var slopes := seq(n, i requires 0 <= i < n => Slope(F, c, d, xs[i], ys[i]));
      forall i | 0 <= i < n ensures F.elem(slopes[i]) && F.add(F.mul(F.Sub(xs[i], c), slopes[i]), d) == ys[i] {
        SlopeMeets(F, c, d, xs[i], ys[i]);
      }
      var q := Interpolant(F, xs[..n], slopes);
      a := TimesLinear(F, q, c, d);
      TimesLinearElem(F, q, c, d);
      forall i | 0 <= i <= n ensures Eval(F, a, xs[i]) == ys[i] {
        TimesLinearValue(F, q, c, d, xs[i]);
        if i == n {
          AtItsRoot(F, c, Eval(F, q, c), d, q);
        } else {
          assert Eval(F, q, xs[..n][i]) == slopes[i];
        }
      }
    }
  }

  lemma AtItsRoot<T(!new)>(F: Field<T>, c: T, v: T, d: T, q: seq<T>)
    requires F.Lawful() && F.elem(c) && F.elem(d) && AllElem(F, q) && v == Eval(F, q, c)
    ensures F.add(F.mul(F.Sub(c, c), v), d) == d
  {
    EvalElem(F, q, c);
    F.SubAdd(c, c);
    F.MulZero(v);
    assert F.AddComm(F.zero, d) && F.AddZero(d);
  }

  // ----- there is only one

  /** Synthetic division: the coefficients of the quotient by x - c are the values of the leading parts at c. */
  function Quotient<T(!new)>(F: Field<T>, p: seq<T>, c: T): (q: seq<T>)
    requires p != []
    ensures |q| == |p| - 1
  {
    seq(|p| - 1, i requires 0 <= i < |p| - 1 => Eval(F, p[..i + 1], c))
  }

  lemma QuotientParts<T(!new)>(F: Field<T>, p: seq<T>, c: T)
    requires F.Lawful() && |p| >= 2 && AllElem(F, p) && F.elem(c)
    ensures var n, q := |p| - 1, Quotient(F, p, c);
            q == Quotient(F, p[..n], c) + [Eval(F, p[..n], c)]
  {
    var n, q := |p| - 1, Quotient(F, p, c);
    var front := Quotient(F, p[..n], c);
    forall i | 0 <= i < n - 1 ensures q[i] == front[i] {
      assert p[..n][..i + 1] == p[..i + 1];
    }
  }

  /** p - (e c), where p + e c is the value. */
  lemma LastCoefficient<T(!new)>(F: Field<T>, e: T, c: T, p: T)
    requires F.Lawful() && F.elem(e) && F.elem(c) && F.elem(p)
    ensures F.Sub(F.add(F.mul(e, c), p), F.mul(c, e)) == p
  {
    F.Closure(e, c);
    assert F.MulComm(e, c) && F.AddComm(F.mul(e, c), p);
    F.SubAdd(p, F.mul(c, e));
  }

  lemma ConstantValue<T(!new)>(F: Field<T>, p: seq<T>, c: T)
    requires F.Lawful() && |p| == 1 && AllElem(F, p) && F.elem(c)
    ensures Eval(F, p, c) == p[0] && Quotient(F, p, c) == [] && TimesLinear(F, [], c, p[0]) == p
  {
    assert p[..0] == [];
    assert F.AddComm(F.zero, p[0]) && F.AddZero(p[0]);
    F.MulZero(c);
  }

  lemma {:induction false} Division<T(!new)>(F: Field<T>, p: seq<T>, c: T)
    requires F.Lawful() && p != [] && AllElem(F, p) && F.elem(c)
    ensures AllElem(F, Quotient(F, p, c)) && TimesLinear(F, Quotient(F, p, c), c, Eval(F, p, c)) == p
  {
    var n := |p| - 1;
    if n == 0 {
      ConstantValue(F, p, c);
    } else {
      Division(F, p[..n], c);
      EvalElem(F, p[..n], c);
      QuotientParts(F, p, c);
      var q, front, e := Quotient(F, p, c), Quotient(F, p[..n], c), Eval(F, p[..n], c);
      assert q[..n - 1] == front && q[n - 1] == e;
      LastCoefficient(F, e, c, p[n]);
    }
  }

  lemma ZeroFactor<T(!new)>(F: Field<T>, s: T, v: T)
    requires F.Lawful() && F.elem(s) && F.elem(v) && s != F.zero && F.add(F.mul(s, v), F.zero) == F.zero
    ensures v == F.zero
  {
    F.Closure(s, v);
    assert F.AddZero(F.mul(s, v));
    F.MulZero(s);
    F.MulCancel(v, F.zero, s);
  }

  ghost predicate AllZero<T(!new)>(F: Field<T>, p: seq<T>) {
    forall i :: 0 <= i < |p| ==> p[i] == F.zero
  }

  lemma {:induction false} ZeroTimes<T(!new)>(F: Field<T>, q: seq<T>, c: T)
    requires F.Lawful() && AllZero(F, q) && F.elem(c)
    ensures AllZero(F, TimesLinear(F, q, c, F.zero))
  {
    if q != [] {
      ZeroTimes(F, q[..|q| - 1], c);
      F.MulZero(c);
      F.SubAdd(F.zero, F.zero);
    }
  }

  /** A polynomial with as many roots as coefficients is zero. */
  lemma {:induction false} ManyRoots<T(!new)>(F: Field<T>, p: seq<T>, xs: seq<T>)
    requires F.Lawful() && AllElem(F, p) && AllElem(F, xs) && Distinct(xs) && |p| == |xs|
    requires forall i :: 0 <= i < |xs| ==> Eval(F, p, xs[i]) == F.zero
    ensures AllZero(F, p)
    decreases |xs|
  {
    if p != [] {
      var n := |xs| - 1;
      var c := xs[n];
      var q := Quotient(F, p, c);
      Division(F, p, c);
      assert F.elem(F.zero);
      forall i | 0 <= i < n ensures Eval(F, q, xs[..n][i]) == F.zero {
        TimesLinearValue(F, q, c, F.zero, xs[i]);
        F.Closure(xs[i], c);
        F.SubAdd(xs[i], c);
        EvalElem(F, q, xs[i]);
        ZeroFactor(F, F.Sub(xs[i], c), Eval(F, q, xs[i]));
      }
      ManyRoots(F, q, xs[..n]);
      ZeroTimes(F, q, c);
    }
  }

  function Minus<T(!new)>(F: Field<T>, a: seq<T>, b: seq<T>): (p: seq<T>)
    requires |a| == |b|
    ensures |p| == |a|
  {
    seq(|a|, i requires 0 <= i < |a| => F.Sub(a[i], b[i]))
  }

  /** (u x + c) - (v x + d) = (u - v) x + (c - d), for values u and v of the leading parts. */
  lemma MinusStep<T(!new)>(F: Field<T>, u: T, v: T, x: T, c: T, d: T)
    requires F.Lawful() && F.elem(u) && F.elem(v) && F.elem(x) && F.elem(c) && F.elem(d)
    ensures F.add(F.add(F.mul(F.Sub(u, v), x), F.Sub(c, d)), F.add(F.mul(v, x), d)) == F.add(F.mul(u, x), c)
  {
    F.Closure(u, v);
    F.Closure(c, d);
    F.Closure(v, x);
    F.Closure(F.Sub(u, v), x);
    F.AddShuffle(F.mul(F.Sub(u, v), x), F.Sub(c, d), F.mul(v, x), d);
    F.SplitMul(u, v, x);
    F.SubAdd(c, d);
  }

  lemma {:induction false} MinusValue<T(!new)>(F: Field<T>, a: seq<T>, b: seq<T>, x: T)
    requires F.Lawful() && AllElem(F, a) && AllElem(F, b) && |a| == |b| && F.elem(x)
    ensures AllElem(F, Minus(F, a, b)) && Eval(F, Minus(F, a, b), x) == F.Sub(Eval(F, a, x), Eval(F, b, x))
  {
    var p := Minus(F, a, b);
    forall i | 0 <= i < |a| ensures F.elem(p[i]) {
      F.Closure(a[i], b[i]);
    }
    if a == [] {
      F.SubAdd(F.zero, F.zero);
    } else {
      var n := |a| - 1;
      MinusValue(F, a[..n], b[..n], x);
      assert p[..n] == Minus(F, a[..n], b[..n]);
      var u, v := Eval(F, a[..n], x), Eval(F, b[..n], x);
      EvalElem(F, a[..n], x);
      EvalElem(F, b[..n], x);
      EvalElem(F, p, x);
      EvalElem(F, b, x);
      MinusStep(F, u, v, x, a[n], b[n]);
      F.SubAdd(Eval(F, p, x), Eval(F, b, x));
    }
  }

  /** Two polynomials with as many coefficients as points are equal if they agree on the points. */
  lemma OnlyInterpolant<T(!new)>(F: Field<T>, xs: seq<T>, ys: seq<T>, a: seq<T>, b: seq<T>)
    requires F.Lawful() && AllElem(F, xs) && AllElem(F, ys) && Distinct(xs)
    requires Through(F, a, xs, ys) && Through(F, b, xs, ys)
    ensures a == b
  {
    var p := Minus(F, a, b);
    forall i | 0 <= i < |xs| ensures Eval(F, p, xs[i]) == F.zero {
      MinusValue(F, a, b, xs[i]);
      F.SubAdd(ys[i], ys[i]);
    }
    forall i | 0 <= i < |a| ensures F.elem(p[i]) {
      F.Closure(a[i], b[i]);
    }
    ManyRoots(F, p, xs);
    forall i | 0 <= i < |a| ensures a[i] == b[i] {
      assert p[i] == F.zero;
      F.SubAdd(a[i], b[i]);
    }
  }

  // ----- what k - 1 shares say

  /** The ids of shares: distinct and not zero. */
  ghost predicate ShareIds<T(!new)>(F: Field<T>, ids: seq<T>) {
    AllElem(F, ids) && Distinct(ids) && forall i :: 0 <= i < |ids| ==> ids[i] != F.zero
  }

  /** The coefficients deal the secret, and these values to these ids. */
  ghost predicate Deals<T(!new)>(F: Field<T>, a: seq<T>, secret: T, ids: seq<T>, ys: seq<T>) {
    && |a| == |ids| + 1 && |ys| == |ids| && AllElem(F, a) && a[|ids|] == secret
    && forall i :: 0 <= i < |ids| ==> Eval(F, a, ids[i]) == ys[i]
  }

  lemma DealsIsThrough<T(!new)>(F: Field<T>, a: seq<T>, secret: T, ids: seq<T>, ys: seq<T>)
    requires F.Lawful() && ShareIds(F, ids) && |ys| == |ids| && |a| == |ids| + 1 && AllElem(F, a)
    ensures AllElem(F, [F.zero] + ids) && Distinct([F.zero] + ids)
    ensures Deals(F, a, secret, ids, ys) <==> Through(F, a, [F.zero] + ids, [secret] + ys)
  {
    var xs, vs := [F.zero] + ids, [secret] + ys;
    EvalAtZero(F, a);
    if Deals(F, a, secret, ids, ys) {
      forall i | 0 <= i < |xs| ensures Eval(F, a, xs[i]) == vs[i] {
        assert i > 0 ==> xs[i] == ids[i - 1] && vs[i] == ys[i - 1];
      }
    }
    if Through(F, a, xs, vs) {
      assert xs[0] == F.zero && vs[0] == secret;
      forall i | 0 <= i < |ids| ensures Eval(F, a, ids[i]) == ys[i] {
        assert xs[i + 1] == ids[i] && vs[i + 1] == ys[i];
      }
    }
  }

  /** Perfect secrecy: for any k - 1 shares, every secret is dealt by exactly one choice of coefficients. */
  lemma EverySecretOnce<T(!new)>(F: Field<T>, ids: seq<T>, ys: seq<T>, secret: T) returns (a: seq<T>)
    requires F.Lawful() && ShareIds(F, ids) && |ys| == |ids| && AllElem(F, ys) && F.elem(secret)
    ensures Deals(F, a, secret, ids, ys)
    ensures forall b :: Deals(F, b, secret, ids, ys) ==> b == a
  {
    var xs, vs := [F.zero] + ids, [secret] + ys;
    assert AllElem(F, xs) && AllElem(F, vs) && Distinct(xs);
    a := Interpolant(F, xs, vs);
    DealsIsThrough(F, a, secret, ids, ys);
    forall b | Deals(F, b, secret, ids, ys) ensures b == a {
      DealsIsThrough(F, b, secret, ids, ys);
      OnlyInterpolant(F, xs, vs, a, b);
    }
  }

  /** Modulo a group order: k - 1 shares of any secret are also shares of any other, with other coefficients. */
  lemma DlSharesHide(q: int, random: seq<int>, x: int, x': int, ids: seq<int>) returns (random': seq<int>)
    requires Residues.Prime(q) && DlSharing.Reduced(q, random + [x]) && 0 <= x' < q && |ids| == |random|
    requires DlSharing.Reduced(q, ids) && Distinct(ids) && forall i :: 0 <= i < |ids| ==> ids[i] != 0
    ensures |random'| == |random| && DlSharing.Reduced(q, random' + [x'])
    ensures forall i :: 0 <= i < |ids| ==>
              Eval(Residues.ModField(q), random' + [x'], ids[i]) == Eval(Residues.ModField(q), random + [x], ids[i])
  {
    var F := Residues.ModField(q);
    Residues.ModFieldLawful(q);
    var ys := Evals(F, random + [x], ids);
    EvalsElem(F, random + [x], ids);
    var a := EverySecretOnce(F, ids, ys, x');
    random' := a[..|ids|];
    assert random' + [x'] == a;
  }

  // ----- bytes

  lemma {:induction false} PolynomialAt<T>(secret: T, rng: nat -> T, start: nat, n: nat, i: nat)
    requires i < n
    ensures Polynomial(secret, rng, start, n)[i] == rng(start + n - 1 - i)
  {
    if i > 0 {
      PolynomialAt(secret, rng, start, n - 1, i - 1);
    }
  }

  lemma {:induction false} StartIs(j: nat, k: nat)
    requires k >= 1
    ensures Start(j, k) == (k - 1) * j
  {
    if j > 0 {
      StartIs(j - 1, k);
      Residues.Distribute(k - 1, j - 1, 1);
    }
  }

  /** One such polynomial per element. */
  lemma {:induction false} OtherPolynomials<T(!new)>(F: Field<T>, ids: seq<T>, k: nat, m: seq<T>, rng: nat -> T,
                                                    m': seq<T>, n: nat) returns (ps: seq<seq<T>>)
    requires Suitable(F) && ShareIds(F, ids) && k == |ids| + 1 && |m'| == |m| && n <= |m|
    ensures |ps| == n && forall j :: 0 <= j < n ==> Replaces(F, ids, k, m, rng, m', j, ps[j])
  {
    if n == 0 {
      ps := [];
    } else {
      ps := OtherPolynomials(F, ids, k, m, rng, m', n - 1);
      var a := OtherPolynomial(F, ids, k, m, rng, m', n - 1);
      ps := ps + [a];
    }
  }

  /** The polynomial deals the new element and the old shares. */
  ghost predicate Replaces<T(!new)>(F: Field<T>, ids: seq<T>, k: nat, m: seq<T>, rng: nat -> T, m': seq<T>, j: nat,
                                    a: seq<T>)
    requires k >= 1 && j < |m| && |m'| == |m|
  {
    |a| == k && a[k - 1] == m'[j]
    && forall i :: 0 <= i < |ids| ==> Eval(F, a, ids[i]) == ShareOf(F, ids[i], k, m, rng)[j]
  }

  lemma OtherPolynomial<T(!new)>(F: Field<T>, ids: seq<T>, k: nat, m: seq<T>, rng: nat -> T, m': seq<T>, j: nat)
    returns (a: seq<T>)
    requires Suitable(F) && ShareIds(F, ids) && k == |ids| + 1 && |m'| == |m| && j < |m|
    ensures Replaces(F, ids, k, m, rng, m', j, a)
  {
    var ys := seq(|ids|, i requires 0 <= i < |ids| => ShareOf(F, ids[i], k, m, rng)[j]);
    a := EverySecretOnce(F, ids, ys, m'[j]);
  }

  /** The random numbers that draw the given polynomials. */
  function Drawing<T>(ps: seq<seq<T>>, k: nat, other: T): nat -> T {
    (p: nat) =>
      if k >= 2 && 0 <= p / (k - 1) < |ps| && |ps[p / (k - 1)]| == k && 0 <= p % (k - 1) < k - 1
      then ps[p / (k - 1)][k - 2 - p % (k - 1)] else other
  }

  lemma DrawnPolynomial<T>(ps: seq<seq<T>>, k: nat, other: T, j: nat, secret: T)
    requires k >= 1 && j < |ps| && |ps[j]| == k && ps[j][k - 1] == secret
    ensures Polynomial(secret, Drawing(ps, k, other), Start(j, k), k - 1) == ps[j]
  {
    var rng := Drawing(ps, k, other);
    var a := Polynomial(secret, rng, Start(j, k), k - 1);
    forall i | 0 <= i < k - 1 ensures a[i] == ps[j][i] {
      PolynomialAt(secret, rng, Start(j, k), k - 1, i);
      StartIs(j, k);
      Residues.DivModUnique(Start(j, k) + k - 2 - i, k - 1, j, k - 2 - i);
    }
  }

  /** Bytes: any k - 1 shares of any message are also shares of any other message of the same length, made with other
      random numbers. */
  lemma FewSharesHide<T(!new)>(F: Field<T>, ids: seq<T>, k: nat, m: seq<T>, rng: nat -> T, m': seq<T>)
    returns (rng': nat -> T)
    requires Suitable(F) && ShareIds(F, ids) && k == |ids| + 1 && |m'| == |m|
    ensures forall i :: 0 <= i < |ids| ==> ShareOf(F, ids[i], k, m', rng') == ShareOf(F, ids[i], k, m, rng)
  {
    var ps := OtherPolynomials(F, ids, k, m, rng, m', |m|);
    rng' := Drawing(ps, k, F.zero);
    forall i | 0 <= i < |ids| ensures ShareOf(F, ids[i], k, m', rng') == ShareOf(F, ids[i], k, m, rng) {
      forall j | 0 <= j < |m| ensures ShareOf(F, ids[i], k, m', rng')[j] == ShareOf(F, ids[i], k, m, rng)[j] {
        assert Replaces(F, ids, k, m, rng, m', j, ps[j]);
        DrawnPolynomial(ps, k, F.zero, j, m'[j]);
      }
    }
  }
}
