/** Shoup's threshold RSA signatures (`src/core/schemes/src/rsa_schemes/signatures/sh00.rs`):
    signature shares with their proofs of correctness, and the assembled signature.

    Values are residues modulo N; `pow_mod` and `inv_mod` are powers and inverses in the
    group of units.  The hash functions enter through their values: the hashed message, its
    Jacobi symbol, and the challenge function of the share proof. */
module Sh00 {
  import opened Groups
  import opened Interpolation
  import opened Residues
  import opened ThresholdRsa

  datatype PublicKey = PublicKey(N: int, e: nat, delta: int, v: int, vi: seq<int>, u: int)

  /** A signature share with its proof (z, c). */
  datatype SignatureShare = SignatureShare(id: int, xi: int, z: int, c: int)

  /** The challenge hash, over the six group elements of a share proof. */
  type Challenge<!G> = (G, G, G, G, G, G) -> int

  /** The element that is signed: the hash, moved into the subgroup by u^e when its Jacobi
      symbol is -1. */
  function Base<G(!new)>(group: AbelianGroup<G>, h: G, jacobi: int, u: G, e: int): G {
    if jacobi == -1 then group.op(group.Pow(u, e), h) else h
  }

  // ----- signature shares

  /** `partial_sign`, with the random exponent r as a parameter. */
  method PartialSign(pk: PublicKey, H2: Challenge<int>, h: int, jacobi: int, id: int, si: int, r: int)
    returns (share: SignatureShare)
    requires pk.N > 1 && 1 <= id <= |pk.vi| && (jacobi == 1 || jacobi == -1)
    ensures var G, x := Units(pk.N), Base(Units(pk.N), h, jacobi, pk.u, pk.e);
            && share.id == id && share.xi == G.Pow(x, si + si)
            && share.c == HonestChallenge(G, H2, pk.v, pk.vi[id - 1], x, si, r)
            && share.z == si * share.c + r
  {
    var G := Units(pk.N);
    var x := Base(G, h, jacobi, pk.u, pk.e);
    var xi := G.Pow(x, si + si);
    var xHat := G.Pow(x, 4);
    var v1 := G.Pow(pk.v, r);
    var x1 := G.Pow(xHat, r);
    var xi2 := (xi * xi) % pk.N;
    var c := H2(pk.v, xHat, pk.vi[id - 1], xi2, v1, x1);
    share := SignatureShare(id, xi, si * c + r, c);
  }

  function HonestChallenge<G(!new)>(group: AbelianGroup<G>, H2: Challenge<G>, v: G, vi: G, x: G, si: int, r: int): int {
    var xi, xHat := group.Pow(x, si + si), group.Pow(x, 4);
    H2(v, xHat, vi, group.op(xi, xi), group.Pow(v, r), group.Pow(xHat, r))
  }

  /** The check of a share proof: the commitments recomputed from z and c hash back to c. */
  predicate ProofAccepted<G(!new)>(group: AbelianGroup<G>, H2: Challenge<G>, v: G, vi: G, x: G, xi: G, z: int, c: int) {
    var xHat := group.Pow(x, 4);
    var v1 := group.op(group.Pow(v, z), group.inv(group.Pow(vi, c)));
    var x1 := group.op(group.Pow(xHat, z), group.inv(group.Pow(xi, c + c)));
    H2(v, xHat, vi, group.op(xi, xi), v1, x1) == c
  }

  /** A response z to the challenge c for the commitments v1 and x1: v1 vi^c = v^z and x1 xi^(2c) = x^(4z). */
  ghost predicate Responds<G(!new)>(group: AbelianGroup<G>, v: G, vi: G, x: G, xi: G, v1: G, x1: G, z: int, c: int) {
    && group.elem(v1) && group.elem(x1)
    && group.op(v1, group.Pow(vi, c)) == group.Pow(v, z)
    && group.op(x1, group.Pow(xi, 2 * c)) == group.Pow(x, 4 * z)
  }

  ghost predicate ProofMembers<G(!new)>(group: AbelianGroup<G>, v: G, vi: G, x: G, xi: G) {
    group.elem(v) && group.elem(vi) && group.elem(x) && group.elem(xi)
  }

  lemma SquareIsProduct<G(!new)>(group: AbelianGroup<G>, g: G)
    requires group.Lawful() && group.elem(g)
    ensures group.Pow(g, 2) == group.op(g, g)
  {
    group.PowOne(g);
    group.PowAdd(g, 1, 1);
  }

  /** Exact acceptance: for the commitments that z and c respond to, of which there is exactly one pair, the proof is
      accepted if and only if they hash to c. */
  lemma AcceptedIff<G(!new)>(group: AbelianGroup<G>, H2: Challenge<G>, v: G, vi: G, x: G, xi: G, v1: G, x1: G,
                             z: int, c: int)
    requires group.Lawful() && ProofMembers(group, v, vi, x, xi) && Responds(group, v, vi, x, xi, v1, x1, z, c)
    ensures ProofAccepted(group, H2, v, vi, x, xi, z, c)
       <==> H2(v, group.Pow(x, 4), vi, group.Pow(xi, 2), v1, x1) == c
  {
    SquareIsProduct(group, xi);
    group.PowMul(x, 4, z);
    assert 2 * c == c + c;
    group.PowElem(vi, c);
    group.PowElem(xi, c + c);
    group.DivOp(v1, group.Pow(vi, c));
    group.DivOp(x1, group.Pow(xi, c + c));
  }

  /** There always are such commitments. */
  lemma CommitmentsExist<G(!new)>(group: AbelianGroup<G>, v: G, vi: G, x: G, xi: G, z: int, c: int)
    returns (v1: G, x1: G)
    requires group.Lawful() && ProofMembers(group, v, vi, x, xi)
    ensures Responds(group, v, vi, x, xi, v1, x1, z, c)
  {
    group.PowElem(v, z);
    group.PowElem(vi, c);
    group.PowElem(x, 4 * z);
    group.PowElem(xi, 2 * c);
    v1, x1 := group.Div(group.Pow(v, z), group.Pow(vi, c)), group.Div(group.Pow(x, 4 * z), group.Pow(xi, 2 * c));
    group.DivOp(group.Pow(v, z), group.Pow(vi, c));
    group.DivOp(group.Pow(x, 4 * z), group.Pow(xi, 2 * c));
  }

  /** Special soundness: two accepted answers to the same commitments with different challenges determine the
      differences of the exponents; so whoever can answer both has made the share with the exponent behind vi. */
  lemma SpecialSoundness<G(!new)>(group: AbelianGroup<G>, v: G, vi: G, x: G, xi: G, v1: G, x1: G,
                                  z: int, c: int, z': int, c': int)
    requires group.Lawful() && ProofMembers(group, v, vi, x, xi)
    requires Responds(group, v, vi, x, xi, v1, x1, z, c) && Responds(group, v, vi, x, xi, v1, x1, z', c')
    ensures group.Pow(vi, c - c') == group.Pow(v, z - z')
    ensures group.Pow(xi, 2 * (c - c')) == group.Pow(x, 4 * (z - z'))
  {
    group.TwoResponses(v1, v, vi, c, c', z, z');
    group.TwoResponses(x1, x, xi, 2 * c, 2 * c', 4 * z, 4 * z');
  }

  /** `verify_share`: accepts exactly when the commitments that the share responds to hash to its challenge. */
  method VerifyShare(pk: PublicKey, H2: Challenge<int>, h: int, jacobi: int, share: SignatureShare) returns (ok: bool)
    requires pk.N > 1 && 1 <= share.id <= |pk.vi| && (jacobi == 1 || jacobi == -1)
    ensures ok == ProofAccepted(Units(pk.N), H2, pk.v, pk.vi[share.id - 1], Base(Units(pk.N), h, jacobi, pk.u, pk.e),
                                share.xi, share.z, share.c)
    ensures var G, vi, x := Units(pk.N), pk.vi[share.id - 1], Base(Units(pk.N), h, jacobi, pk.u, pk.e);
            ProofMembers(G, pk.v, vi, x, share.xi) ==>
              forall v1, x1 :: Responds(G, pk.v, vi, x, share.xi, v1, x1, share.z, share.c) ==>
                (ok <==> H2(pk.v, G.Pow(x, 4), vi, G.Pow(share.xi, 2), v1, x1) == share.c)
  {
    var G, N := Units(pk.N), pk.N;
    var vi := pk.vi[share.id - 1];
    var x := Base(G, h, jacobi, pk.u, pk.e);
    var xHat := G.Pow(x, 4);
    var xi2 := (share.xi * share.xi) % N;
    var div := InvMod(G.Pow(vi, share.c), N);
    var v1 := (G.Pow(pk.v, share.z) * div) % N;
    div := InvMod(G.Pow(share.xi, share.c + share.c), N);
    var x1 := (G.Pow(xHat, share.z) * div) % N;
    var c2 := H2(pk.v, xHat, vi, xi2, v1, x1);
    ok := c2 == share.c;
    UnitsLawful(pk.N);
    forall v1, x1 | ProofMembers(G, pk.v, vi, x, share.xi)
                    && Responds(G, pk.v, vi, x, share.xi, v1, x1, share.z, share.c)
      ensures ok <==> H2(pk.v, G.Pow(x, 4), vi, G.Pow(share.xi, 2), v1, x1) == share.c
    {
      AcceptedIff(G, H2, pk.v, vi, x, share.xi, v1, x1, share.z, share.c);
    }
  }

  /** g^(s c + r) divided by (g^s)^c is g^r. */
  lemma UnblindPower<G(!new)>(group: AbelianGroup<G>, g: G, p: G, s: int, c: int, r: int)
    requires group.Lawful() && group.elem(g) && p == group.Pow(g, s * c)
    ensures group.op(group.Pow(g, s * c + r), group.inv(p)) == group.Pow(g, r)
  {
    group.PowAdd(g, r, s * c);
    group.PowElem(g, r);
    group.PowElem(g, s * c);
    group.DivOp(group.Pow(g, r), p);
  }

  /** Completeness of the share proof: with a verification key v^si, every share made by
      `partial_sign` is accepted by `verify_share`, whatever the hash function. */
  lemma HonestProofAccepted<G(!new)>(group: AbelianGroup<G>, H2: Challenge<G>, v: G, x: G, si: int, r: int)
    requires group.Lawful() && group.elem(v) && group.elem(x)
    ensures var vi := group.Pow(v, si);
            var c := HonestChallenge(group, H2, v, vi, x, si, r);
            ProofAccepted(group, H2, v, vi, x, group.Pow(x, si + si), si * c + r, c)
  {
    var vi, xi, xHat := group.Pow(v, si), group.Pow(x, si + si), group.Pow(x, 4);
    var c := HonestChallenge(group, H2, v, vi, x, si, r);
    group.PowElem(x, 4);
    group.PowMul(v, si, c);
    UnblindPower(group, v, group.Pow(vi, c), si, c, r);
    group.PowMul(x, si + si, c + c);
    group.PowMul(x, 4, si * c);
    assert (si + si) * (c + c) == 4 * (si * c);
    UnblindPower(group, xHat, group.Pow(xi, c + c), si, c, r);
  }

  // ----- the assembled signature

  /** w^a x^b, divided by u when the hash was moved by u^e. */
  function Assembled<G(!new)>(group: AbelianGroup<G>, h: G, jacobi: int, u: G, e: nat, w: G): G {
    var (a, b) := ExtEuclid(4, e);
    var y := group.op(group.Pow(w, a), group.Pow(Base(group, h, jacobi, u, e), b));
    if jacobi == -1 then group.op(group.inv(u), y) else y
  }

  /** `assemble`. */
  method Assemble(shares: seq<RsaShare>, pk: PublicKey, h: int, jacobi: int) returns (y: int)
    requires pk.N > 1 && (jacobi == 1 || jacobi == -1)
    ensures y == Assembled(Units(pk.N), h, jacobi, pk.u, pk.e,
                           RsaProduct(Units(pk.N), ByteIds(shares), pk.delta, RsaIds(shares), RsaData(shares)))
  {
    var G, N := Units(pk.N), pk.N;
    var (a, b) := ExtEuclid(4, pk.e);
    var x := Base(G, h, jacobi, pk.u, pk.e);
    var w := InterpolateRsa(shares, N, pk.delta);
    w := G.Pow(w, a);
    y := (w * G.Pow(x, b)) % N;
    if jacobi == -1 {
      y := (InvMod(pk.u, N) * y) % N;
    }
  }

  /** The exponent equation behind the signature: w = x^(4d) and d e = 1 modulo the order of
      x^2 give w^(a e) x^(b e) = x^(4a + b e) = x. */
  lemma RootOfBase<G(!new)>(group: AbelianGroup<G>, x: G, w: G, d: int, e: nat, m: int)
    requires group.Lawful() && group.elem(x) && m > 0 && group.Pow(group.Pow(x, 2), m) == group.unit
    requires w == group.Pow(group.Pow(x, 2), 2 * d)
    requires Cong(d * e, 1, m) && Gcd(4, e) == 1
    ensures var (a, b) := ExtEuclid(4, e);
            group.Pow(group.op(group.Pow(w, a), group.Pow(x, b)), e) == x
  {
    var (a, b) := ExtEuclid(4, e);
    var s := group.Pow(x, 2);
    group.PowElem(x, 2);
    group.PowElem(s, 2 * d);
    group.PowElem(w, a);
    group.PowElem(x, b);
    group.PowOp(group.Pow(w, a), group.Pow(x, b), e);
    calc {
      group.Pow(group.Pow(w, a), e);
      { group.PowMul(w, a, e); group.PowMul(w, e, a); assert a * e == e * a; }
      group.Pow(group.Pow(w, e), a);
      { group.PowMul(s, 2 * d, e); ExponentPeriod(group, s, d, e, m); }
      group.Pow(group.Pow(s, 2), a);
      { group.PowMul(x, 2, 2); group.PowMul(x, 4, a); }
      group.Pow(x, 4 * a);
    }
    group.PowMul(x, b, e);
    group.PowAdd(x, 4 * a, b * e);
    assert 4 * a + b * e == 1;
    group.PowOne(x);
  }

  lemma ExponentPeriod<G(!new)>(group: AbelianGroup<G>, s: G, d: int, e: nat, m: int)
    requires group.Lawful() && group.elem(s) && m > 0 && group.Pow(s, m) == group.unit && Cong(d * e, 1, m)
    ensures group.Pow(s, (2 * d) * e) == group.Pow(s, 2)
  {
    var k := CongWitness(d * e, 1, m);
    assert (2 * d) * e == 2 * (d * e) && 2 * (1 + m * k) == 2 + m * (2 * k);
    group.PowPeriod(s, m, (2 * d) * e, 2, 2 * k);
  }

  lemma StripBase<G(!new)>(group: AbelianGroup<G>, h: G, u: G, y: G, e: int)
    requires group.Lawful() && group.elem(h) && group.elem(u) && group.elem(y)
    requires group.Pow(y, e) == group.op(group.Pow(u, e), h)
    ensures group.Pow(group.op(group.inv(u), y), e) == h
  {
    assert group.Inverse(u);
    var p := group.Pow(u, e);
    group.PowElem(u, e);
    group.PowOp(group.inv(u), y, e);
    group.PowOp(group.inv(u), u, e);
    group.PowElem(group.inv(u), e);
    var i := group.Pow(group.inv(u), e);
    assert group.Comm(group.inv(u), u);
    group.PowUnit(e);
    assert group.Assoc(i, p, h) && group.Comm(group.unit, h) && group.Unit(h);
  }

  /** The signature theorem: from any quorum of shares x^(2 s_i), with distinct ids in 1..n that are
      at most 255, `assemble` makes a value whose e-th power is the hashed message, so
      `verify` accepts it; for either Jacobi symbol. */
  lemma AssembledSignatureVerifies(pk: PublicKey, h: int, jacobi: int, f: seq<int>, n: nat, m: int,
                                   shares: seq<RsaShare>)
    requires pk.N > 1 && Units(pk.N).elem(h) && Units(pk.N).elem(pk.u) && (jacobi == 1 || jacobi == -1)
    requires m > 0 && pk.delta == Fac(n) && Coprime(Fac(n), m)
    requires forall i :: 0 <= i < |shares| ==> shares[i].id <= 255
    requires 0 < |f| <= |shares| && Cong(f[0] * pk.e, 1, m) && Gcd(4, pk.e) == 1
    requires InRange(RsaIds(shares), n) && Distinct(RsaIds(shares))
    requires var G, x := Units(pk.N), Base(Units(pk.N), h, jacobi, pk.u, pk.e);
             && G.Pow(G.Pow(x, 2), m) == 1
             && forall i :: 0 <= i < |shares| ==> shares[i].data == G.Pow(x, 2 * DealtShare(f, n, m, shares[i].id))
    ensures Units(pk.N).Pow(Assembled(Units(pk.N), h, jacobi, pk.u, pk.e,
                                      RsaProduct(Units(pk.N), ByteIds(shares), pk.delta, RsaIds(shares),
                                                 RsaData(shares))),
                            pk.e) == h
  {
    var G := Units(pk.N);
    UnitsLawful(pk.N);
    var x := Base(G, h, jacobi, pk.u, pk.e);
    G.PowElem(pk.u, pk.e);
    assert G.Closed(G.Pow(pk.u, pk.e), h);
    assert G.elem(x);
    var s := G.Pow(x, 2);
    G.PowElem(x, 2);
    forall i | 0 <= i < |shares| ensures RsaData(shares)[i] == G.Pow(s, DealtShare(f, n, m, RsaIds(shares)[i])) {
      G.PowMul(x, 2, DealtShare(f, n, m, shares[i].id));
    }
    AnyRsaQuorumReconstructs(pk.N, s, f, n, m, shares);
    var w := RsaProduct(G, ByteIds(shares), pk.delta, RsaIds(shares), RsaData(shares));
    RootOfBase(G, x, w, f[0], pk.e, m);
    if jacobi == -1 {
      var (a, b) := ExtEuclid(4, pk.e);
      G.PowElem(s, 2 * f[0]);
      G.PowElem(w, a);
      G.PowElem(x, b);
      assert G.Closed(G.Pow(w, a), G.Pow(x, b));
      StripBase(G, h, pk.u, G.op(G.Pow(w, a), G.Pow(x, b)), pk.e);
    }
  }
}
