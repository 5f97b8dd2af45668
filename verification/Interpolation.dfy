/** Lagrange interpolation at zero, once for every field.

    `src/core/schemes` interpolates modulo a prime group order, over the rationals scaled by
    n!, and over GF(256).  All three read the same weights; this module proves, for an
    arbitrary field and an arbitrary list of distinct points, that the weights recover the
    value at zero of every polynomial with no more coefficients than there are points. */
module Interpolation {
  import opened Fields

  /** The points are distinct, as field elements. */
  ghost predicate Distinct<T(!new)>(ids: seq<T>) {
    forall i, j :: 0 <= i < j < |ids| ==> ids[i] != ids[j]
  }

  ghost predicate AllElem<T(!new)>(F: Field<T>, xs: seq<T>) {
    forall i :: 0 <= i < |xs| ==> F.elem(xs[i])
  }

  /** The polynomial with coefficients `a`, highest degree first, at `x`. */
  function Eval<T(!new)>(F: Field<T>, a: seq<T>, x: T): T {
    if a == [] then F.zero else F.add(F.mul(Eval(F, a[..|a| - 1], x), x), a[|a| - 1])
  }

  function Evals<T(!new)>(F: Field<T>, a: seq<T>, xs: seq<T>): (ys: seq<T>)
    ensures |ys| == |xs|
    ensures forall i :: 0 <= i < |xs| ==> ys[i] == Eval(F, a, xs[i])
  {
    seq(|xs|, i requires 0 <= i < |xs| => Eval(F, a, xs[i]))
  }

  function Factor<T(!new)>(F: Field<T>, y: T, x: T): T {
    F.mul(y, F.inv(F.Sub(y, x)))
  }

  /** The Lagrange weight of point `x` at zero: the product of y / (y - x) over the other points y. */
  function Weight<T(!new)(==)>(F: Field<T>, ids: seq<T>, x: T): T {
    if ids == [] then F.one
    else
      var y, rest := ids[|ids| - 1], Weight(F, ids[..|ids| - 1], x);
      if y == x then rest else F.mul(rest, Factor(F, y, x))
  }

  /** The sum over the points `pts` of their weight among `ids` times the value in `ys`. */
  function WeightedSum<T(!new)(==)>(F: Field<T>, ids: seq<T>, pts: seq<T>, ys: seq<T>): T
    requires |pts| == |ys|
  {
    if pts == [] then F.zero
    else
      var n := |pts| - 1;
      F.add(WeightedSum(F, ids, pts[..n], ys[..n]), F.mul(Weight(F, ids, pts[n]), ys[n]))
  }

  lemma {:induction false} EvalElem<T(!new)>(F: Field<T>, a: seq<T>, x: T)
    requires F.Lawful() && AllElem(F, a) && F.elem(x)
    ensures F.elem(Eval(F, a, x))
  {
    if a != [] {
      var h := a[..|a| - 1];
      EvalElem(F, h, x);
      F.Closure(Eval(F, h, x), x);
      F.Closure(F.mul(Eval(F, h, x), x), a[|a| - 1]);
    }
  }

  lemma FactorElem<T(!new)>(F: Field<T>, y: T, x: T)
    requires F.Lawful() && F.elem(x) && F.elem(y) && x != y
    ensures F.elem(Factor(F, y, x)) && F.Sub(y, x) != F.zero
  {
    F.Closure(y, x);
    F.SubAdd(y, x);
    F.Closure(F.Sub(y, x), y);
    F.Closure(y, F.inv(F.Sub(y, x)));
  }

  lemma {:induction false} WeightElem<T(!new)>(F: Field<T>, ids: seq<T>, x: T)
    requires F.Lawful() && AllElem(F, ids) && F.elem(x)
    ensures F.elem(Weight(F, ids, x))
  {
    if ids != [] {
      var y, rest := ids[|ids| - 1], ids[..|ids| - 1];
      WeightElem(F, rest, x);
      if y != x {
        FactorElem(F, y, x);
        F.Closure(Weight(F, rest, x), Factor(F, y, x));
      }
    }
  }

  lemma TermElem<T(!new)>(F: Field<T>, ids: seq<T>, x: T, v: T)
    requires F.Lawful() && AllElem(F, ids) && F.elem(x) && F.elem(v)
    ensures F.elem(F.mul(Weight(F, ids, x), v))
  {
    WeightElem(F, ids, x);
    F.Closure(Weight(F, ids, x), v);
  }

  lemma {:induction false} SumElem<T(!new)>(F: Field<T>, ids: seq<T>, pts: seq<T>, ys: seq<T>)
    requires F.Lawful() && AllElem(F, ids) && AllElem(F, pts) && AllElem(F, ys) && |pts| == |ys|
    ensures F.elem(WeightedSum(F, ids, pts, ys))
  {
    if pts != [] {
      var n := |pts| - 1;
      SumElem(F, ids, pts[..n], ys[..n]);
      TermElem(F, ids, pts[n], ys[n]);
      F.Closure(WeightedSum(F, ids, pts[..n], ys[..n]), F.mul(Weight(F, ids, pts[n]), ys[n]));
    }
  }

  /** A weight does not depend on where in the list a point stands: here, at the front. */
  lemma {:induction false} WeightFront<T(!new)>(F: Field<T>, y: T, ids: seq<T>, x: T)
    requires F.Lawful() && AllElem(F, ids) && F.elem(x) && F.elem(y) && x != y
    ensures Weight(F, [y] + ids, x) == F.mul(Weight(F, ids, x), Factor(F, y, x))
  {
    if ids == [] {
      assert [y] + ids == [y];
      assert [y][..0] == [];
    } else {
      var z, rest := ids[|ids| - 1], ids[..|ids| - 1];
      var all := [y] + ids;
      assert all[|all| - 1] == z && all[..|all| - 1] == [y] + rest;
      WeightFront(F, y, rest, x);
      if z != x {
        FactorElem(F, y, x);
        FactorElem(F, z, x);
        WeightElem(F, rest, x);
        var w, fy, fz := Weight(F, rest, x), Factor(F, y, x), Factor(F, z, x);
        assert F.MulAssoc(w, fy, fz) && F.MulComm(fy, fz) && F.MulAssoc(w, fz, fy);
      }
    }
  }

  /** Multiplying the value at p by y - p cancels the factor of y in the weight of p. */
  lemma CancelFactor<T(!new)>(F: Field<T>, w: T, y: T, p: T, v: T)
    requires F.Lawful() && F.elem(w) && F.elem(y) && F.elem(p) && F.elem(v) && p != y
    ensures F.mul(F.mul(w, Factor(F, y, p)), F.mul(F.Sub(y, p), v)) == F.mul(y, F.mul(w, v))
  {
    FactorElem(F, y, p);
    F.Closure(y, p);
    var s, f := F.Sub(y, p), Factor(F, y, p);
    var i := F.inv(s);
    F.Closure(s, y);
    calc {
      F.mul(F.mul(w, f), F.mul(s, v));
      { assert F.MulComm(w, f); }
      F.mul(F.mul(f, w), F.mul(s, v));
      { F.MulShuffle(f, w, s, v); }
      F.mul(F.mul(f, s), F.mul(w, v));
      { assert F.MulAssoc(y, i, s) && F.MulComm(i, s) && F.MulInverse(s) && F.MulOne(y); }
      F.mul(y, F.mul(w, v));
    }
  }

  /** Dropping point `y` from the list, at the cost of a factor y - p in every value. */
  lemma {:induction false} DropPoint<T(!new)>(F: Field<T>, ids: seq<T>, rest: seq<T>, y: T,
                                              pts: seq<T>, ys: seq<T>, us: seq<T>)
    requires F.Lawful() && AllElem(F, ids) && AllElem(F, rest) && F.elem(y)
    requires AllElem(F, pts) && AllElem(F, ys) && |pts| == |ys| == |us|
    requires forall i :: 0 <= i < |pts| ==>
               && pts[i] != y
               && Weight(F, ids, pts[i]) == F.mul(Weight(F, rest, pts[i]), Factor(F, y, pts[i]))
    requires forall i :: 0 <= i < |pts| ==> us[i] == F.mul(F.Sub(y, pts[i]), ys[i])
    ensures WeightedSum(F, ids, pts, us) == F.mul(y, WeightedSum(F, rest, pts, ys))
  {
    if pts == [] {
      F.MulZero(y);
    } else {
      var n := |pts| - 1;
      DropPoint(F, ids, rest, y, pts[..n], ys[..n], us[..n]);
      WeightElem(F, rest, pts[n]);
      CancelFactor(F, Weight(F, rest, pts[n]), y, pts[n], ys[n]);
      SumElem(F, rest, pts[..n], ys[..n]);
      TermElem(F, rest, pts[n], ys[n]);
      assert F.Distrib(y, WeightedSum(F, rest, pts[..n], ys[..n]), F.mul(Weight(F, rest, pts[n]), ys[n]));
    }
  }

  lemma {:induction false} SumFront<T(!new)>(F: Field<T>, ids: seq<T>, p: T, pts: seq<T>, u: T, us: seq<T>)
    requires F.Lawful() && AllElem(F, ids) && F.elem(p) && F.elem(u)
    requires AllElem(F, pts) && AllElem(F, us) && |pts| == |us|
    ensures WeightedSum(F, ids, [p] + pts, [u] + us)
         == F.add(F.mul(Weight(F, ids, p), u), WeightedSum(F, ids, pts, us))
  {
    var t := F.mul(Weight(F, ids, p), u);
    TermElem(F, ids, p, u);
    if pts == [] {
      assert [p] + pts == [p] && [u] + us == [u] && [p][..0] == [] && [u][..0] == [];
      assert F.AddComm(F.zero, t);
    } else {
      var n := |pts| - 1;
      assert ([p] + pts)[..n + 1] == [p] + pts[..n] && ([u] + us)[..n + 1] == [u] + us[..n];
      SumFront(F, ids, p, pts[..n], u, us[..n]);
      SumElem(F, ids, pts[..n], us[..n]);
      TermElem(F, ids, pts[n], us[n]);
      assert F.AddAssoc(t, WeightedSum(F, ids, pts[..n], us[..n]), F.mul(Weight(F, ids, pts[n]), us[n]));
    }
  }

  /** A weighted sum is linear in the values. */
  lemma {:induction false} SumLinear<T(!new)>(F: Field<T>, ids: seq<T>, pts: seq<T>, c: T,
                                              ys: seq<T>, zs: seq<T>, us: seq<T>)
    requires F.Lawful() && AllElem(F, ids) && AllElem(F, pts) && F.elem(c)
    requires AllElem(F, ys) && AllElem(F, zs) && |pts| == |ys| == |zs| == |us|
    requires forall i :: 0 <= i < |pts| ==> us[i] == F.add(F.mul(c, ys[i]), zs[i])
    ensures WeightedSum(F, ids, pts, us)
         == F.add(F.mul(c, WeightedSum(F, ids, pts, ys)), WeightedSum(F, ids, pts, zs))
  {
    if pts == [] {
      F.MulZero(c);
      assert F.AddZero(F.zero);
    } else {
      var n := |pts| - 1;
      SumLinear(F, ids, pts[..n], c, ys[..n], zs[..n], us[..n]);
      LinearStep(F, ids, c, Weight(F, ids, pts[n]), ys[n], zs[n], pts[..n], ys[..n], zs[..n], pts[n]);
    }
  }

  lemma LinearStep<T(!new)>(F: Field<T>, ids: seq<T>, c: T, w: T, y: T, z: T,
                            pts: seq<T>, ys: seq<T>, zs: seq<T>, p: T)
    requires F.Lawful() && AllElem(F, ids) && AllElem(F, pts) && F.elem(c)
    requires AllElem(F, ys) && AllElem(F, zs) && |pts| == |ys| == |zs|
    requires F.elem(y) && F.elem(z) && F.elem(p) && w == Weight(F, ids, p)
    ensures F.add(F.add(F.mul(c, WeightedSum(F, ids, pts, ys)), WeightedSum(F, ids, pts, zs)),
                  F.mul(w, F.add(F.mul(c, y), z)))
         == F.add(F.mul(c, F.add(WeightedSum(F, ids, pts, ys), F.mul(w, y))),
                  F.add(WeightedSum(F, ids, pts, zs), F.mul(w, z)))
  {
    var sy, sz := WeightedSum(F, ids, pts, ys), WeightedSum(F, ids, pts, zs);
    SumElem(F, ids, pts, ys);
    SumElem(F, ids, pts, zs);
    WeightElem(F, ids, p);
    F.Closure(c, y);
    F.Closure(w, y);
    F.Closure(w, z);
    F.Closure(c, sy);
    F.Closure(c, F.mul(w, y));
    calc {
      F.mul(w, F.add(F.mul(c, y), z));
      { assert F.Distrib(w, F.mul(c, y), z); }
      F.add(F.mul(w, F.mul(c, y)), F.mul(w, z));
      { assert F.MulAssoc(w, c, y) && F.MulComm(w, c) && F.MulAssoc(c, w, y); }
      F.add(F.mul(c, F.mul(w, y)), F.mul(w, z));
    }
    F.AddShuffle(F.mul(c, sy), sz, F.mul(c, F.mul(w, y)), F.mul(w, z));
    assert F.Distrib(c, sy, F.mul(w, y));
  }

  /** The values multiplied pointwise by y - p. */
  function Shifted<T(!new)>(F: Field<T>, y: T, pts: seq<T>, ys: seq<T>): (us: seq<T>)
    requires |pts| == |ys|
    ensures |us| == |pts|
    ensures forall i :: 0 <= i < |pts| ==> us[i] == F.mul(F.Sub(y, pts[i]), ys[i])
  {
    seq(|pts|, i requires 0 <= i < |pts| => F.mul(F.Sub(y, pts[i]), ys[i]))
  }

  lemma ShiftedElem<T(!new)>(F: Field<T>, y: T, pts: seq<T>, ys: seq<T>)
    requires F.Lawful() && F.elem(y) && AllElem(F, pts) && AllElem(F, ys) && |pts| == |ys|
    ensures AllElem(F, Shifted(F, y, pts, ys))
  {
    forall i | 0 <= i < |pts| ensures F.elem(Shifted(F, y, pts, ys)[i]) {
      F.Closure(y, pts[i]);
      F.Closure(F.Sub(y, pts[i]), ys[i]);
    }
  }

  lemma ShiftedSelf<T(!new)>(F: Field<T>, ids: seq<T>, y: T, v: T)
    requires F.Lawful() && AllElem(F, ids) && F.elem(y) && F.elem(v)
    ensures F.mul(Weight(F, ids, y), F.mul(F.Sub(y, y), v)) == F.zero
  {
    F.SubAdd(y, y);
    F.MulZero(v);
    WeightElem(F, ids, y);
    F.MulZero(Weight(F, ids, y));
  }

  lemma DropLast<T(!new)>(F: Field<T>, ids: seq<T>, ys: seq<T>)
    requires F.Lawful() && AllElem(F, ids) && Distinct(ids) && AllElem(F, ys) && |ids| == |ys| > 0
    ensures WeightedSum(F, ids, ids, Shifted(F, ids[|ids| - 1], ids, ys))
         == F.mul(ids[|ids| - 1], WeightedSum(F, ids[..|ids| - 1], ids[..|ids| - 1], ys[..|ids| - 1]))
  {
    var n := |ids| - 1;
    var y, rest, us := ids[n], ids[..n], Shifted(F, ids[n], ids, ys);
    DropPoint(F, ids, rest, y, rest, ys[..n], us[..n]);
    ShiftedSelf(F, ids, y, ys[n]);
    SumElem(F, rest, rest, ys[..n]);
    F.Closure(y, WeightedSum(F, rest, rest, ys[..n]));
    assert F.AddZero(F.mul(y, WeightedSum(F, rest, rest, ys[..n])));
  }

  lemma DropFirst<T(!new)>(F: Field<T>, ids: seq<T>, ys: seq<T>)
    requires F.Lawful() && AllElem(F, ids) && Distinct(ids) && AllElem(F, ys) && |ids| == |ys| > 0
    ensures WeightedSum(F, ids, ids, Shifted(F, ids[0], ids, ys))
         == F.mul(ids[0], WeightedSum(F, ids[1..], ids[1..], ys[1..]))
  {
    var y, rest, us := ids[0], ids[1..], Shifted(F, ids[0], ids, ys);
    assert ids == [y] + rest && us == [us[0]] + us[1..];
    forall i | 0 <= i < |rest|
      ensures rest[i] != y
      ensures Weight(F, ids, rest[i]) == F.mul(Weight(F, rest, rest[i]), Factor(F, y, rest[i]))
    {
      assert rest[i] == ids[i + 1];
      WeightFront(F, y, rest, rest[i]);
    }
    DropPoint(F, ids, rest, y, rest, ys[1..], us[1..]);
    ShiftedElem(F, y, ids, ys);
    SumFront(F, ids, y, rest, us[0], us[1..]);
    ShiftedSelf(F, ids, y, ys[0]);
    SumElem(F, rest, rest, ys[1..]);
    F.Closure(y, WeightedSum(F, rest, rest, ys[1..]));
    var s := F.mul(y, WeightedSum(F, rest, rest, ys[1..]));
    assert F.AddComm(F.zero, s) && F.AddZero(s);
  }

  lemma EvalsElem<T(!new)>(F: Field<T>, a: seq<T>, ids: seq<T>)
    requires F.Lawful() && AllElem(F, a) && AllElem(F, ids)
    ensures AllElem(F, Evals(F, a, ids))
  {
    forall i | 0 <= i < |ids| {
      EvalElem(F, a, ids[i]);
    }
  }

  lemma EvalAtZero<T(!new)>(F: Field<T>, a: seq<T>)
    requires F.Lawful() && AllElem(F, a) && a != []
    ensures Eval(F, a, F.zero) == a[|a| - 1]
  {
    var h, c := a[..|a| - 1], a[|a| - 1];
    EvalElem(F, h, F.zero);
    F.MulZero(Eval(F, h, F.zero));
    assert F.AddComm(F.zero, c) && F.AddZero(c);
  }

  /** With a spare point, two different points can be dropped in turn, and the two
      equations determine the weighted sum. */
  lemma SpareConstraint<T(!new)>(F: Field<T>, ids: seq<T>, ys: seq<T>, v: T)
    requires F.Lawful() && AllElem(F, ids) && Distinct(ids) && AllElem(F, ys) && |ids| == |ys| >= 2
    requires F.elem(v)
    requires var n := |ids| - 1; WeightedSum(F, ids[..n], ids[..n], ys[..n]) == v
    requires WeightedSum(F, ids[1..], ids[1..], ys[1..]) == v
    ensures WeightedSum(F, ids, ids, ys) == v
  {
    var x, y := ids[0], ids[|ids| - 1];
    var us, ws := Shifted(F, y, ids, ys), Shifted(F, x, ids, ys);
    DropLast(F, ids, ys);
    DropFirst(F, ids, ys);
    ShiftedElem(F, x, ids, ys);
    var d := F.Sub(y, x);
    F.Closure(y, x);
    F.SubAdd(y, x);
    forall i | 0 <= i < |ids| ensures us[i] == F.add(F.mul(d, ys[i]), ws[i]) {
      ShiftDifference(F, y, x, ids[i], ys[i]);
    }
    SumLinear(F, ids, ids, d, ys, ws, us);
    var s := WeightedSum(F, ids, ids, ys);
    SumElem(F, ids, ids, ys);
    F.SplitMul(y, x, v);
    F.Closure(d, s);
    F.Closure(d, v);
    F.Closure(x, v);
    F.AddCancel(F.mul(d, s), F.mul(d, v), F.mul(x, v));
    F.MulCancel(s, v, d);
  }

  /** (y - p) v = (y - x) v + (x - p) v. */
  lemma ShiftDifference<T(!new)>(F: Field<T>, y: T, x: T, p: T, v: T)
    requires F.Lawful() && F.elem(y) && F.elem(x) && F.elem(p) && F.elem(v)
    ensures F.mul(F.Sub(y, p), v) == F.add(F.mul(F.Sub(y, x), v), F.mul(F.Sub(x, p), v))
  {
    F.Closure(y, x);
    F.Closure(x, p);
    F.Closure(y, p);
    var d, e := F.Sub(y, x), F.Sub(x, p);
    calc {
      F.add(d, e);
      { assert F.AddAssoc(d, x, F.neg(p)); }
      F.add(F.add(d, x), F.neg(p));
      { F.SubAdd(y, x); }
      F.Sub(y, p);
    }
    assert F.MulComm(F.Sub(y, p), v) && F.MulComm(d, v) && F.MulComm(e, v) && F.Distrib(v, d, e);
  }

  /** h p + c = c - ((y - p) h - y h), in the additive form h p + c + (y - p) h = y h + c. */
  lemma HornerShift<T(!new)>(F: Field<T>, y: T, p: T, h: T, c: T)
    requires F.Lawful() && F.elem(y) && F.elem(p) && F.elem(h) && F.elem(c)
    ensures F.add(F.mul(F.one, F.add(F.mul(h, p), c)), F.mul(F.Sub(y, p), h)) == F.add(F.mul(y, h), c)
  {
    F.Closure(y, p);
    F.Closure(h, p);
    F.Closure(y, h);
    F.Closure(F.Sub(y, p), h);
    F.Closure(F.mul(h, p), c);
    var hp, sh := F.mul(h, p), F.mul(F.Sub(y, p), h);
    assert F.MulComm(F.one, F.add(hp, c)) && F.MulOne(F.add(hp, c));
    F.SplitMul(y, p, h);
    assert F.MulComm(p, h);
    assert F.AddComm(hp, c) && F.AddAssoc(c, hp, sh) && F.AddComm(hp, sh) && F.AddComm(c, F.add(sh, hp));
  }

  lemma {:induction false} WeightSingle<T(!new)>(F: Field<T>, x: T)
    ensures Weight(F, [x], x) == F.one
  {
    assert [x][..0] == [];
  }

  /** The weights of distinct points sum to one. */
  lemma {:induction false} PartitionOfUnity<T(!new)>(F: Field<T>, ids: seq<T>, ys: seq<T>)
    requires F.Lawful() && AllElem(F, ids) && Distinct(ids) && |ids| == |ys| > 0
    requires forall i :: 0 <= i < |ys| ==> ys[i] == F.one
    ensures WeightedSum(F, ids, ids, ys) == F.one
    decreases |ids|
  {
    if |ids| == 1 {
      assert ids == [ids[0]] && ids[..0] == [] && ys[..0] == [];
      WeightSingle(F, ids[0]);
      assert F.MulOne(F.one) && F.AddComm(F.zero, F.one) && F.AddZero(F.one);
    } else {
      var n := |ids| - 1;
      PartitionOfUnity(F, ids[..n], ys[..n]);
      PartitionOfUnity(F, ids[1..], ys[1..]);
      SpareConstraint(F, ids, ys, F.one);
    }
  }

  /** The interpolation theorem: among distinct points, the weights recover the value at
      zero of every polynomial with at most as many coefficients as there are points. */
  lemma {:induction false} InterpolatesAtZero<T(!new)>(F: Field<T>, ids: seq<T>, a: seq<T>)
    requires F.Lawful() && AllElem(F, ids) && Distinct(ids) && AllElem(F, a)
    requires 0 < |a| <= |ids|
    ensures WeightedSum(F, ids, ids, Evals(F, a, ids)) == a[|a| - 1]
    decreases |ids|, |a|
  {
    var h, c := a[..|a| - 1], a[|a| - 1];
    var n := |ids| - 1;
    var y := ids[n];
    var hs, fs := Evals(F, h, ids), Evals(F, a, ids);
    EvalsElem(F, h, ids);
    EvalsElem(F, a, ids);
    var us := Shifted(F, y, ids, hs);
    ShiftedElem(F, y, ids, hs);
    var h0 := if h == [] then F.zero else h[|h| - 1];
    LowerDegree(F, ids, h, h0);
    // the sum of y h(p) + c is y h0 + c
    var ones := seq(|ids|, _ => F.one);
    PartitionOfUnity(F, ids, ones);
    var cs := seq(|ids|, _ => c);
    var zs := seq(|ids|, _ => F.zero);
    var ts := seq(|ids|, i requires 0 <= i < |ids| => F.add(F.mul(y, hs[i]), c));
    ZeroSum(F, ids, ids, zs);
    forall i | 0 <= i < |ids| ensures cs[i] == F.add(F.mul(c, ones[i]), zs[i]) {
      assert F.MulOne(c) && F.AddZero(c);
    }
    SumLinear(F, ids, ids, c, ones, zs, cs);
    assert F.MulOne(c) && F.AddZero(c);
    SumLinear(F, ids, ids, y, hs, cs, ts);
    // and it is also the sum of f(p) plus the sum of (y - p) h(p), which is y h0
    forall i | 0 <= i < |ids| ensures ts[i] == F.add(F.mul(F.one, fs[i]), us[i]) {
      EvalElem(F, h, ids[i]);
      HornerShift(F, y, ids[i], hs[i], c);
    }
    SumLinear(F, ids, ids, F.one, fs, us, ts);
    var s := WeightedSum(F, ids, ids, fs);
    SumElem(F, ids, ids, fs);
    F.Closure(y, h0);
    assert F.MulComm(F.one, s) && F.MulOne(s);
    assert F.AddComm(F.mul(y, h0), c);
    F.AddCancel(s, c, F.mul(y, h0));
  }

  lemma {:induction false} ZeroSum<T(!new)>(F: Field<T>, ids: seq<T>, pts: seq<T>, zs: seq<T>)
    requires F.Lawful() && AllElem(F, ids) && AllElem(F, pts) && |pts| == |zs|
    requires forall i :: 0 <= i < |zs| ==> zs[i] == F.zero
    ensures WeightedSum(F, ids, pts, zs) == F.zero
  {
    if pts != [] {
      var n := |pts| - 1;
      ZeroSum(F, ids, pts[..n], zs[..n]);
      WeightElem(F, ids, pts[n]);
      F.MulZero(Weight(F, ids, pts[n]));
      assert F.AddZero(F.zero);
    }
  }

  /** What the theorem gives for a polynomial with fewer coefficients than points, for the
      whole list and with the last point dropped. */
  lemma {:induction false} LowerDegree<T(!new)>(F: Field<T>, ids: seq<T>, h: seq<T>, h0: T)
    requires F.Lawful() && AllElem(F, ids) && Distinct(ids) && AllElem(F, h) && |h| < |ids|
    requires h0 == if h == [] then F.zero else h[|h| - 1]
    ensures var hs := Evals(F, h, ids);
            && WeightedSum(F, ids, ids, hs) == h0
            && WeightedSum(F, ids, ids, Shifted(F, ids[|ids| - 1], ids, hs)) == F.mul(ids[|ids| - 1], h0)
    decreases |ids|, |h|
  {
    var n := |ids| - 1;
    var hs := Evals(F, h, ids);
    EvalsElem(F, h, ids);
    DropLast(F, ids, hs);
    if h == [] {
      ZeroSum(F, ids, ids, hs);
      ZeroSum(F, ids[..n], ids[..n], hs[..n]);
    } else {
      InterpolatesAtZero(F, ids[..n], h);
      InterpolatesAtZero(F, ids[1..], h);
      assert hs[..n] == Evals(F, h, ids[..n]) && hs[1..] == Evals(F, h, ids[1..]);
      SpareConstraint(F, ids, hs, h0);
    }
  }
}
