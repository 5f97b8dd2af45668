/** Shamir sharing modulo a prime group order and reconstruction in the exponent
    (`src/core/schemes/src/dl_schemes/common.rs`). */
module DlSharing {
  import opened Digits
  import opened Groups
  import opened Fields
  import opened Interpolation
  import opened Residues

  // ----- polynomial evaluation

  /** The integer polynomial with coefficients `a`, highest degree first, at `x`. */
  function PolyValue(a: seq<int>, x: int): int {
    if a == [] then 0 else PolyValue(a[..|a| - 1], x) * x + a[|a| - 1]
  }

  lemma HornerStep(r: int, p: int, x: int, c: int, q: int)
    requires q > 0 && Cong(r, p, q)
    ensures ((r * x) % q + c) % q == (p * x + c) % q
  {
    CongMul(r, p, x, x, q);
    ModCong(r * x, q);
    CongAdd((r * x) % q, p * x, c, c, q);
  }

  /** Evaluation modulo q is integer evaluation reduced once at the end. */
  lemma {:induction false} EvalIsPolyValue(q: int, a: seq<int>, x: int)
    requires q > 0
    ensures Eval(ModField(q), a, x) == PolyValue(a, x) % q
  {
    if a == [] {
      SmallMod(0, q);
    } else {
      var h := a[..|a| - 1];
      EvalIsPolyValue(q, h, x);
      ModCong(PolyValue(h, x), q);
      HornerStep(PolyValue(h, x) % q, PolyValue(h, x), x, a[|a| - 1], q);
    }
  }

  /** The value that `horner` accumulates, coefficient by coefficient. */
  function HornerValue(q: int, x: int, a: seq<int>): int
    requires q > 0 && |a| > 0
  {
    var n := |a| - 1;
    if n == 0 then a[0] else ((HornerValue(q, x, a[..n]) * x) % q + a[n]) % q
  }

  /** `horner`: reduces at every step, except that a single coefficient is returned as it is. */
  method Horner(q: int, x: int, a: seq<int>) returns (r: int)
    requires q > 0 && |a| > 0
    ensures r == HornerValue(q, x, a)
    ensures |a| > 1 ==> r == PolyValue(a, x) % q
    ensures |a| == 1 ==> r == a[0]
    ensures Cong(r, PolyValue(a, x), q)
  {
    r := a[0];
    assert a[..1][..0] == [];
    for i := 1 to |a|
      invariant r == HornerValue(q, x, a[..i])
      invariant i == 1 ==> r == a[0]
      invariant i > 1 ==> r == PolyValue(a[..i], x) % q
      invariant Cong(r, PolyValue(a[..i], x), q)
    {
      assert a[..i + 1][..i] == a[..i];
      HornerStep(r, PolyValue(a[..i], x), x, a[i], q);
      r := ((r * x) % q + a[i]) % q;
      ModCong(PolyValue(a[..i + 1], x), q);
    }
    assert a[..|a|] == a;
  }

  /** `horner` returns the reduced value, which is what `eval_pol` returns, exactly for more than one
      coefficient or a single reduced one. */
  lemma {:induction false} HornerReducedIff(q: int, x: int, a: seq<int>)
    requires q > 0 && |a| > 0
    ensures HornerValue(q, x, a) == PolyValue(a, x) % q <==> |a| > 1 || 0 <= a[0] < q
    ensures Cong(HornerValue(q, x, a), PolyValue(a, x), q)
  {
    var n := |a| - 1;
    if n == 0 {
      assert a[..0] == [] && PolyValue(a, x) == a[0];
      if 0 <= a[0] < q {
        SmallMod(a[0], q);
      }
    } else {
      HornerReducedIff(q, x, a[..n]);
      HornerStep(HornerValue(q, x, a[..n]), PolyValue(a[..n], x), x, a[n], q);
      ModCong(PolyValue(a, x), q);
    }
  }

  /** A single coefficient that is not reduced. */
  lemma HornerInput()
    ensures HornerValue(5, 1, [7]) == 7 && PolyValue([7], 1) % 5 == 2
  {
    HornerReducedIff(5, 1, [7]);
    assert [7][..0] == [];
  }

  /** `eval_pol`: the sum of the monomials, always reduced. */
  method EvalPol(q: int, x: int, a: seq<int>) returns (val: int)
    requires q > 0 && |a| > 0
    ensures val == PolyValue(a, x) % q
  {
    val := 0;
    var len := |a|;
    SmallMod(0, q);
    for i := 0 to len - 1
      invariant val == (PolyValue(a[..i], x) * IntPow(x, len - i)) % q
    {
      var xi := IntPow(x, len - i - 1) % q;
      var tmp := (a[i] * xi) % q;
      MonomialStep(val, PolyValue(a[..i], x), x, a[i], IntPow(x, len - i - 1), q);
      assert a[..i + 1][..i] == a[..i];
      val := (val + tmp) % q;
    }
    assert a[..len - 1] == a[..|a| - 1];
    assert IntPow(x, 1) == IntPow(x, 0) * x == x;
    ModCong(PolyValue(a[..len - 1], x) * x, q);
    CongAdd(val, PolyValue(a[..len - 1], x) * x, a[len - 1], a[len - 1], q);
    val := (val + a[len - 1]) % q;
  }

  lemma MonomialStep(v: int, p: int, x: int, c: int, m: int, q: int)
    requires q > 0 && v == (p * (m * x)) % q
    ensures (v + (c * (m % q)) % q) % q == ((p * x + c) * m) % q
  {
    ModCong(m, q);
    CongMul(c, c, m % q, m, q);
    ModCong(c * (m % q), q);
    ModCong(p * (m * x), q);
    CongAdd(v, p * (m * x), (c * (m % q)) % q, c * m, q);
    assert (p * x + c) * m == p * (m * x) + c * m;
  }

  // ----- sharing

  predicate Reduced(q: int, xs: seq<int>) {
    forall i :: 0 <= i < |xs| ==> 0 <= xs[i] < q
  }

  /** `shamir_share`: `random` holds the k - 1 random coefficients; share j is the value at
      j + 1 of the polynomial whose constant term is the secret, and comes with g^share. */
  method ShamirShare<G(!new)>(group: AbelianGroup<G>, g: G, q: int, x: int, random: seq<int>, n: nat)
    returns (shares: seq<int>, h: seq<G>)
    requires n < q && Reduced(q, random + [x])
    ensures |shares| == |h| == n
    ensures forall j :: 0 <= j < n ==> shares[j] == Eval(ModField(q), random + [x], j + 1)
    ensures forall j :: 0 <= j < n ==> h[j] == group.Pow(g, shares[j])
  {
    var coeff := random + [x];
    shares, h := [], [];
    for j := 1 to n + 1
      invariant |shares| == |h| == j - 1
      invariant forall l :: 0 <= l < j - 1 ==> shares[l] == Eval(ModField(q), coeff, l + 1)
      invariant forall l :: 0 <= l < j - 1 ==> h[l] == group.Pow(g, shares[l])
    {
      var xi := Horner(q, j, coeff);
      EvalIsPolyValue(q, coeff, j);
      if |coeff| == 1 {
        assert coeff[..0] == [] && PolyValue(coeff, j) == coeff[0];
        SmallMod(coeff[0], q);
      }
      h := h + [group.Pow(g, xi)];
      shares := shares + [xi];
    }
  }

  // ----- reconstruction

  /** `lagrange_coeff`: the loop computes the field weight of point i. */
  method LagrangeCoeff(q: int, indices: seq<int>, i: int) returns (prod: int)
    requires Prime(q) && Reduced(q, indices) && 0 <= i < q
    ensures prod == Weight(ModField(q), indices, i)
    ensures 0 <= prod < q
  {
    var F := ModField(q);
    prod := 1;
    SmallMod(1, q);
    for k := 0 to |indices|
      invariant prod == Weight(F, indices[..k], i)
      invariant 0 <= prod < q
    {
      var j := indices[k];
      assert indices[..k + 1][..k] == indices[..k];
      if i != j {
        var ij := if i > j then q - (i - j) else j - i;
        DifferenceMod(q, j, i);
        ij := InvMod(ij, q);
        ij := (ij * j) % q;
        assert ij == Factor(F, j, i) by {
          assert InvMod(F.Sub(j, i), q) * j == j * InvMod(F.Sub(j, i), q);
        }
        SmallMod(prod, q);
        prod := prod % q;
        prod := (prod * ij) % q;
      }
    }
    assert indices[..|indices|] == indices;
    SmallMod(prod, q);
    prod := prod % q;
  }

  lemma DifferenceMod(q: int, j: int, i: int)
    requires q > 0 && 0 <= i < q && 0 <= j < q
    ensures ModField(q).Sub(j, i) == (if i > j then q - (i - j) else j - i)
  {
    ModCong(-i, q);
    CongAdd(j, j, (-i) % q, -i, q);
    if i > j {
      DivModUnique(j - i, q, -1, q - (i - j));
    } else {
      SmallMod(j - i, q);
    }
  }

  /** The product over the points `pts` of the data raised to the weight of the point. */
  function WeightedProduct<G(!new)>(group: AbelianGroup<G>, q: int, ids: seq<int>, pts: seq<int>, data: seq<G>): G
    requires q > 0 && |pts| == |data|
  {
    if pts == [] then group.unit
    else
      var n := |pts| - 1;
      group.op(WeightedProduct(group, q, ids, pts[..n], data[..n]),
               group.Pow(data[n], Weight(ModField(q), ids, pts[n])))
  }

  /** A discrete-logarithm share: the id of its owner and a group element. */
  datatype DlShare<G> = DlShare(id: int, data: G)

  function Ids<G>(shares: seq<DlShare<G>>): (ids: seq<int>)
    ensures |ids| == |shares| && forall i :: 0 <= i < |ids| ==> ids[i] == shares[i].id
  {
    seq(|shares|, i requires 0 <= i < |shares| => shares[i].id)
  }

  function Data<G>(shares: seq<DlShare<G>>): (data: seq<G>)
    ensures |data| == |shares| && forall i :: 0 <= i < |data| ==> data[i] == shares[i].data
  {
    seq(|shares|, i requires 0 <= i < |shares| => shares[i].data)
  }

  ghost predicate AllMembers<G(!new)>(group: AbelianGroup<G>, xs: seq<G>) {
    forall i :: 0 <= i < |xs| ==> group.elem(xs[i])
  }

  lemma {:induction false} WeightedProductMember<G(!new)>(group: AbelianGroup<G>, q: int, ids: seq<int>,
                                                          pts: seq<int>, data: seq<G>)
    requires group.Lawful() && q > 0 && |pts| == |data| && AllMembers(group, data)
    ensures group.elem(WeightedProduct(group, q, ids, pts, data))
  {
    if pts != [] {
      var n := |pts| - 1;
      WeightedProductMember(group, q, ids, pts[..n], data[..n]);
      var w := Weight(ModField(q), ids, pts[n]);
      group.PowElem(data[n], w);
      assert group.Closed(WeightedProduct(group, q, ids, pts[..n], data[..n]), group.Pow(data[n], w));
    }
  }

  /** `interpolate`: the weighted product of the shares, started from the first factor. */
  method Interpolate<G(!new)>(group: AbelianGroup<G>, q: int, shares: seq<DlShare<G>>) returns (ry: G)
    requires group.Lawful() && Prime(q) && |shares| > 0
    requires Reduced(q, Ids(shares)) && AllMembers(group, Data(shares))
    ensures ry == WeightedProduct(group, q, Ids(shares), Ids(shares), Data(shares))
  {
    var ids, data := Ids(shares), Data(shares);
    ry := group.unit;
    for i := 0 to |shares|
      invariant ry == WeightedProduct(group, q, ids, ids[..i], data[..i])
    {
      var l := LagrangeCoeff(q, ids, shares[i].id);
      var ui := group.Pow(shares[i].data, l);
      assert ids[..i + 1][..i] == ids[..i] && data[..i + 1][..i] == data[..i];
      if i == 0 {
        group.PowElem(data[0], l);
        assert group.Comm(group.unit, ui) && group.Unit(ui);
        ry := ui;
      } else {
        ry := group.op(ry, ui);
      }
    }
    assert ids[..|ids|] == ids && data[..|data|] == data;
  }

  /** In the exponent, a weighted product is a weighted sum. */
  lemma {:induction false} ProductIsPower<G(!new)>(group: AbelianGroup<G>, u: G, q: int,
                                                  ids: seq<int>, pts: seq<int>, ys: seq<int>, data: seq<G>)
    requires group.Lawful() && group.elem(u) && q > 0 && group.Pow(u, q) == group.unit
    requires |pts| == |ys| == |data|
    requires forall i :: 0 <= i < |pts| ==> data[i] == group.Pow(u, ys[i])
    ensures WeightedProduct(group, q, ids, pts, data) == group.Pow(u, WeightedSum(ModField(q), ids, pts, ys))
  {
    if pts != [] {
      var n := |pts| - 1;
      var F := ModField(q);
      ProductIsPower(group, u, q, ids, pts[..n], ys[..n], data[..n]);
      var s, w := WeightedSum(F, ids, pts[..n], ys[..n]), Weight(F, ids, pts[n]);
      group.PowMul(u, ys[n], w);
      group.PowAdd(u, s, ys[n] * w);
      assert ys[n] * w == w * ys[n];
      ModCong(w * ys[n], q);
      CongAdd(s, s, (w * ys[n]) % q, w * ys[n], q);
      ModCong(s + (w * ys[n]) % q, q);
      var k := CongWitness(s + w * ys[n], (s + (w * ys[n]) % q) % q, q);
      group.PowPeriod(u, q, s + w * ys[n], (s + (w * ys[n]) % q) % q, k);
    }
  }

  /** Reconstruction: any shares with distinct ids whose data is u raised to the value of one
      polynomial at their id, at least as many as the polynomial has coefficients, combine
      to u raised to its constant term. */
  lemma Reconstructs<G(!new)>(group: AbelianGroup<G>, u: G, q: int, a: seq<int>, shares: seq<DlShare<G>>)
    requires group.Lawful() && group.elem(u) && Prime(q) && group.Pow(u, q) == group.unit
    requires 0 < |a| <= |shares| && Reduced(q, a)
    requires Reduced(q, Ids(shares)) && Distinct(Ids(shares))
    requires forall i :: 0 <= i < |shares| ==>
               shares[i].data == group.Pow(u, Eval(ModField(q), a, shares[i].id))
    ensures WeightedProduct(group, q, Ids(shares), Ids(shares), Data(shares)) == group.Pow(u, a[|a| - 1])
  {
    var F := ModField(q);
    var ids := Ids(shares);
    ModFieldLawful(q);
    var ys := Evals(F, a, ids);
    ProductIsPower(group, u, q, ids, ids, ys, Data(shares));
    InterpolatesAtZero(F, ids, a);
  }

  /** The whole path: any k or more distinct parties of a (k, n) sharing of x, each raising
      u to its own share, reconstruct u^x with `interpolate`. */
  lemma AnyQuorumReconstructs<G(!new)>(group: AbelianGroup<G>, u: G, q: int, x: int, random: seq<int>, n: nat,
                                       dealt: seq<int>, shares: seq<DlShare<G>>)
    requires group.Lawful() && group.elem(u) && Prime(q) && group.Pow(u, q) == group.unit
    requires n < q && Reduced(q, random + [x])
    requires |dealt| == n && forall j :: 0 <= j < n ==> dealt[j] == Eval(ModField(q), random + [x], j + 1)
    requires |shares| > |random| && Distinct(Ids(shares))
    requires forall i :: 0 <= i < |shares| ==>
               1 <= shares[i].id <= n && shares[i].data == group.Pow(u, dealt[shares[i].id - 1])
    ensures WeightedProduct(group, q, Ids(shares), Ids(shares), Data(shares)) == group.Pow(u, x)
  {
    Reconstructs(group, u, q, random + [x], shares);
  }
}
