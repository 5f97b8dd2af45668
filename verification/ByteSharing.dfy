/** Sharing of byte strings (`src/core/schemes/mcore/src/share.rs`).  The loops are followed over any
    field of characteristic two; `Gf256` shows that the bytes with the tables of the source are
    one.  The generator of random bytes is a function from positions to field elements. */
module ByteSharing {
  import opened Options
  import opened Fields
  import opened Interpolation
  import Gf256

  /** One share: its id, the number of shares required, and one element per element of the message. */
  datatype Share<T> = Share(id: T, nsr: int, b: seq<T>)

  ghost predicate OwnNegative<T(!new)>(F: Field<T>) {
    forall a :: F.neg(a) == a
  }

  ghost predicate Everything<T(!new)>(F: Field<T>) {
    forall a :: F.elem(a)
  }

  ghost predicate Suitable<T(!new)>(F: Field<T>) {
    F.Lawful() && OwnNegative(F) && Everything(F)
  }

  function FieldPow<T(!new)>(F: Field<T>, x: T, n: nat): T {
    if n == 0 then F.one else F.mul(FieldPow(F, x, n - 1), x)
  }

  // ----- sharing

  /** The first i random coefficients for one element, highest first, and the element. */
  function Polynomial<T>(secret: T, rng: nat -> T, start: nat, i: nat): (a: seq<T>)
    ensures |a| == i + 1 && a[i] == secret
  {
    if i == 0 then [secret] else [rng(start + i - 1)] + Polynomial(secret, rng, start, i - 1)
  }

  /** A new leading coefficient adds its product with the next power. */
  lemma {:induction false} EvalPrepend<T(!new)>(F: Field<T>, c: T, a: seq<T>, x: T)
    requires Suitable(F)
    ensures Eval(F, [c] + a, x) == F.add(Eval(F, a, x), F.mul(c, FieldPow(F, x, |a|)))
  {
    if a == [] {
      F.MulZero(x);
      assert ([c] + a)[..0] == [];
      assert F.AddComm(F.zero, c) && F.AddZero(c) && F.MulOne(c);
    } else {
      var n := |a| - 1;
      var h, d := a[..n], a[n];
      EvalPrepend(F, c, h, x);
      assert ([c] + a)[..|a|] == [c] + h && ([c] + a)[|a|] == d;
      PrependStep(F, Eval(F, h, x), c, FieldPow(F, x, n), x, d);
    }
  }

  /** (e + c p) x + d = (e x + d) + c (p x). */
  lemma PrependStep<T(!new)>(F: Field<T>, e: T, c: T, p: T, x: T, d: T)
    requires Suitable(F)
    ensures F.add(F.mul(F.add(e, F.mul(c, p)), x), d) == F.add(F.add(F.mul(e, x), d), F.mul(c, F.mul(p, x)))
  {
    var cp := F.mul(c, p);
    assert F.MulComm(F.add(e, cp), x) && F.Distrib(x, e, cp) && F.MulComm(x, e) && F.MulComm(x, cp)
           && F.MulAssoc(c, p, x);
    var u, v := F.mul(e, x), F.mul(c, F.mul(p, x));
    assert F.add(F.add(u, v), d) == F.add(F.add(u, d), v) by {
      assert F.AddAssoc(u, v, d) && F.AddComm(v, d) && F.AddAssoc(u, d, v);
    }
  }

  /** The inner loop of `SHARE::new`: one element of the share. */
  method ShareElement<T(!new)>(F: Field<T>, id: T, k: nat, secret: T, rng: nat -> T, start: nat) returns (s: T)
    requires Suitable(F) && k >= 1
    ensures s == Eval(F, Polynomial(secret, rng, start, k - 1), id)
  {
    var x := id;
    s := secret;
    FirstValue(F, secret, id);
    for i := 1 to k
      invariant x == FieldPow(F, id, i) && s == Eval(F, Polynomial(secret, rng, start, i - 1), id)
    {
      EvalPrepend(F, rng(start + i - 1), Polynomial(secret, rng, start, i - 1), id);
      s := F.add(s, F.mul(rng(start + i - 1), x));
      x := F.mul(x, id);
    }
  }

  lemma FirstValue<T(!new)>(F: Field<T>, secret: T, id: T)
    requires Suitable(F)
    ensures Eval(F, [secret], id) == secret && FieldPow(F, id, 1) == id
  {
    F.MulZero(id);
    assert [secret][..0] == [] && FieldPow(F, id, 0) == F.one;
    assert F.AddComm(F.zero, secret) && F.AddZero(secret) && F.MulComm(F.one, id) && F.MulOne(id);
  }

  /** The elements of a share: the values at its id of one polynomial per element of the message. */
  function ShareOf<T(!new)>(F: Field<T>, id: T, k: nat, m: seq<T>, rng: nat -> T): (s: seq<T>)
    requires k >= 1
    ensures |s| == |m|
  {
    seq(|m|, j requires 0 <= j < |m| => Eval(F, Polynomial(m[j], rng, Start(j, k), k - 1), id))
  }

  /** Where the random numbers for element j begin. */
  function Start(j: nat, k: nat): nat
    requires k >= 1
  {
    if j == 0 then 0 else Start(j - 1, k) + (k - 1)
  }

  ghost predicate IsShareOf<T(!new)>(want: seq<T>, F: Field<T>, id: T, k: nat, m: seq<T>, rng: nat -> T)
    requires k >= 1
  {
    |want| == |m|
    && forall j {:trigger Polynomial(m[j], rng, Start(j, k), k - 1)} :: 0 <= j < |m| ==>
         want[j] == Eval(F, Polynomial(m[j], rng, Start(j, k), k - 1), id)
  }

  method ElementAt<T(!new)>(F: Field<T>, id: T, k: nat, m: seq<T>, rng: nat -> T, j: nat, position: nat,
                            ghost want: seq<T>) returns (e: T)
    requires Suitable(F) && k >= 1 && j < |m| && position == Start(j, k) && IsShareOf(want, F, id, k, m, rng)
    ensures e == want[j]
  {
    e := ShareElement(F, id, k, m[j], rng, position);
  }

  /** The loop of `SHARE::new` over the message. */
  method NewElements<T(!new)>(F: Field<T>, id: T, k: nat, m: seq<T>, rng: nat -> T, ghost want: seq<T>)
    returns (s: seq<T>)
    requires Suitable(F) && k >= 1 && IsShareOf(want, F, id, k, m, rng)
    ensures s == want
  {
    s := [];
    var position := 0;
    for j := 0 to |m|
      invariant |s| == j && position == Start(j, k)
      invariant forall i :: 0 <= i < j ==> s[i] == want[i]
    {
      var e := ElementAt(F, id, k, m, rng, j, position, want);
      s := s + [e];
      position := position + (k - 1);
    }
  }

  // ----- recovery

  lemma FactorSymmetric<T(!new)>(F: Field<T>, x: T, y: T)
    requires Suitable(F)
    ensures F.mul(y, F.inv(F.add(x, y))) == Factor(F, y, x)
  {
    assert F.AddComm(x, y) && F.neg(x) == x;
  }

  /** The inner loop of `interpolate`: the weight of point i. */
  method WeightOf<T(!new,==)>(F: Field<T>, xs: seq<T>, i: nat) returns (p: T)
    requires Suitable(F) && i < |xs|
    ensures Distinct(xs) ==> p == Weight(F, xs, xs[i])
  {
    p := F.one;
    for j := 0 to |xs|
      invariant Distinct(xs) ==> p == Weight(F, xs[..j], xs[i])
    {
      assert xs[..j + 1][..j] == xs[..j];
      FactorSymmetric(F, xs[i], xs[j]);
      if i != j {
        p := F.mul(p, F.mul(xs[j], F.inv(F.add(xs[i], xs[j]))));
      }
    }
    assert xs[..|xs|] == xs;
  }

  /** `interpolate`. */
  method Interpolate<T(!new,==)>(F: Field<T>, xs: seq<T>, ys: seq<T>) returns (r: T)
    requires Suitable(F) && |xs| == |ys|
    ensures Distinct(xs) ==> r == WeightedSum(F, xs, xs, ys)
  {
    r := F.zero;
    for i := 0 to |xs|
      invariant Distinct(xs) ==> r == WeightedSum(F, xs, xs[..i], ys[..i])
    {
      assert xs[..i + 1][..i] == xs[..i] && ys[..i + 1][..i] == ys[..i];
      var p := WeightOf(F, xs, i);
      r := F.add(r, F.mul(p, ys[i]));
    }
    assert xs[..|xs|] == xs && ys[..|ys|] == ys;
  }

  function Ids<T>(shares: seq<Share<T>>): (ids: seq<T>)
    ensures |ids| == |shares|
  {
    seq(|shares|, i requires 0 <= i < |shares| => shares[i].id)
  }

  /** The shares agree on the number required, which is how many there are, and on the length. */
  predicate Consistent<T>(shares: seq<Share<T>>)
    requires |shares| >= 1
  {
    shares[0].nsr == |shares|
    && forall i :: 0 <= i < |shares| ==> shares[i].nsr == shares[0].nsr && |shares[i].b| == |shares[0].b|
  }

  function Slice<T>(shares: seq<Share<T>>, j: nat): (ys: seq<T>)
    requires |shares| >= 1 && Consistent(shares) && j < |shares[0].b|
    ensures |ys| == |shares|
  {
    seq(|shares|, i requires 0 <= i < |shares| => shares[i].b[j])
  }

  function RecoveredElements<T(!new,==)>(F: Field<T>, shares: seq<Share<T>>): (r: seq<T>)
    requires |shares| >= 1 && Consistent(shares)
    ensures |r| == |shares[0].b|
  {
    seq(|shares[0].b|, j requires 0 <= j < |shares[0].b| => WeightedSum(F, Ids(shares), Ids(shares), Slice(shares, j)))
  }

  /** What `recover` writes, if it writes at all. */
  function Recovered<T(!new,==)>(F: Field<T>, shares: seq<Share<T>>): (r: Option<seq<T>>)
    requires |shares| >= 1
  {
    if Consistent(shares) then Some(RecoveredElements(F, shares)) else None
  }

  /** `SHARE::recover`: nothing for shares that do not fit together. */
  method Recover<T(!new,==)>(F: Field<T>, shares: seq<Share<T>>) returns (m: Option<seq<T>>)
    requires Suitable(F) && |shares| >= 1
    ensures m != None <==> && shares[0].nsr == |shares|
                           && forall i :: 0 <= i < |shares| ==>
                                shares[i].nsr == shares[0].nsr && |shares[i].b| == |shares[0].b|
    ensures Distinct(Ids(shares)) ==> m == Recovered(F, shares)
  {
    var len, nsr := |shares[0].b|, shares[0].nsr;
    if nsr != |shares| {
      return None;
    }
    for i := 1 to nsr
      invariant forall k :: 0 <= k < i ==> shares[k].nsr == nsr && |shares[k].b| == len
    {
      if shares[i].nsr != nsr || |shares[i].b| != len {
        return None;
      }
    }
    var bytes: seq<T> := [];
    ghost var want := RecoveredElements(F, shares);
    for j := 0 to len
      invariant |bytes| == j && (Distinct(Ids(shares)) ==> bytes == want[..j])
    {
      assert want[j] == WeightedSum(F, Ids(shares), Ids(shares), Slice(shares, j));
      var y := Interpolate(F, Ids(shares), Slice(shares, j));
      bytes := bytes + [y];
    }
    assert want[..len] == want;
    m := Some(bytes);
  }

  // ----- the round trip

  /** The share of party `id`. */
  function MakeShare<T(!new)>(F: Field<T>, id: T, k: nat, m: seq<T>, rng: nat -> T): Share<T>
    requires k >= 1
  {
    Share(id, k, ShareOf(F, id, k, m, rng))
  }

  /** Any k shares with distinct ids, made with the same random numbers, give back the message. */
  lemma SharesRecover<T(!new)>(F: Field<T>, ids: seq<T>, m: seq<T>, rng: nat -> T, shares: seq<Share<T>>)
    requires Suitable(F) && |ids| >= 1 && Distinct(ids) && |shares| == |ids|
    requires forall i :: 0 <= i < |ids| ==> shares[i] == MakeShare(F, ids[i], |ids|, m, rng)
    ensures Recovered(F, shares) == Some(m)
  {
    var k := |ids|;
    assert Ids(shares) == ids && Consistent(shares);
    forall j | 0 <= j < |m| ensures WeightedSum(F, ids, ids, Slice(shares, j)) == m[j] {
      var a := Polynomial(m[j], rng, Start(j, k), k - 1);
      assert Slice(shares, j) == Evals(F, a, ids);
      InterpolatesAtZero(F, ids, a);
    }
    assert RecoveredElements(F, shares) == m;
  }

  lemma BytesSuitable()
    ensures Suitable(Gf256.Bytes())
  {
    Gf256.BytesLawful();
  }

  /** `SHARE::new`: ids and thresholds outside 1 .. 255 and 2 .. 255 give the empty share. */
  method NewShare(ident: int, numshare: int, m: seq<bv8>, rng: nat -> bv8) returns (s: Share<bv8>)
    ensures 1 <= ident < 256 && 2 <= numshare < 256 ==> s == MakeShare(Gf256.Bytes(), ident as bv8, numshare, m, rng)
    ensures !(1 <= ident < 256 && 2 <= numshare < 256) ==> s.id == 0 && s.nsr == 0
  {
    if ident < 1 || ident >= 256 || numshare < 2 || numshare >= 256 {
      return Share(0, 0, []);
    }
    BytesSuitable();
    var F, id := Gf256.Bytes(), ident as bv8;
    var b := NewElements(F, id, numshare, m, rng, ShareOf(F, id, numshare, m, rng));
    s := Share(id, numshare, b);
  }

  /** The round trip for byte strings: every message comes back from any k shares with distinct ids. */
  lemma BytesRoundTrip(ids: seq<bv8>, m: seq<bv8>, rng: nat -> bv8, shares: seq<Share<bv8>>)
    requires |ids| >= 1 && Distinct(ids) && |shares| == |ids|
    requires forall i :: 0 <= i < |ids| ==> shares[i] == MakeShare(Gf256.Bytes(), ids[i], |ids|, m, rng)
    ensures Recovered(Gf256.Bytes(), shares) == Some(m)
  {
    BytesSuitable();
    SharesRecover(Gf256.Bytes(), ids, m, rng, shares);
  }
}
