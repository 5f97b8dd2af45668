/** The FROST signature scheme (`src/core/schemes/src/dl_schemes/signatures/frost.rs`):
    commitments, signature shares, their verification and their aggregation.  Sections 5.1
    to 5.3 of RFC 9591 describe the same rounds.

    The hash functions are parameters: for one public key and one message, `rho` gives the
    binding factor of a participant for a sorted commitment list and `challenge` the
    challenge for a group commitment. */
module FrostScheme {
  import opened Groups
  import opened Fields
  import opened Interpolation
  import opened Residues
  import opened DlSharing

  datatype Commitment<G> = Commitment(id: int, hiding: G, binding: G)
  datatype Nonce = Nonce(hiding: int, binding: int)
  datatype SigShare = SigShare(id: int, data: int)
  datatype Signature<G> = Signature(R: G, z: int)
  datatype BindingFactor = BindingFactor(id: int, factor: int)
  datatype SchemeResult<T> = Ok(value: T) | IdNotFound

  /** The parameters of one signature: group, generator, order, public key y, verification
      keys h (the key of party i is h[i - 1]) and the two hash functions. */
  datatype Setup<!G(!new)> = Setup(group: AbelianGroup<G>, g: G, q: int, y: G, h: seq<G>,
                                   rho: (seq<Commitment<G>>, int) -> int, challenge: G -> int)
  {
    ghost predicate Valid() {
      && group.Lawful() && Prime(q)
      && group.elem(g) && group.Pow(g, q) == group.unit
      && group.elem(y) && AllMembers(group, h)
    }
  }

  // ----- the commitment list

  function CommitmentIds<G>(list: seq<Commitment<G>>): (ids: seq<int>)
    ensures |ids| == |list| && forall i :: 0 <= i < |ids| ==> ids[i] == list[i].id
  {
    seq(|list|, i requires 0 <= i < |list| => list[i].id)
  }

  function InsertById<G>(c: Commitment<G>, list: seq<Commitment<G>>): seq<Commitment<G>> {
    if list == [] then [c]
    else if c.id <= list[0].id then [c] + list
    else [list[0]] + InsertById(c, list[1..])
  }

  /** `commitment_list.sort()`: a stable sort by id. */
  function SortById<G>(list: seq<Commitment<G>>): seq<Commitment<G>> {
    if list == [] then [] else InsertById(list[0], SortById(list[1..]))
  }

  lemma {:induction false} InsertElements<G>(c: Commitment<G>, list: seq<Commitment<G>>, d: Commitment<G>)
    ensures |InsertById(c, list)| == |list| + 1
    ensures d in InsertById(c, list) <==> d == c || d in list
  {
    if list != [] && c.id > list[0].id {
      InsertElements(c, list[1..], d);
      assert list == [list[0]] + list[1..];
    }
  }

  lemma {:induction false} SortElements<G>(list: seq<Commitment<G>>, d: Commitment<G>)
    ensures |SortById(list)| == |list|
    ensures d in SortById(list) <==> d in list
  {
    if list != [] {
      SortElements(list[1..], d);
      InsertElements(list[0], SortById(list[1..]), d);
      assert list == [list[0]] + list[1..];
    }
  }

  ghost predicate DistinctIds<G>(list: seq<Commitment<G>>) {
    forall i, j :: 0 <= i < j < |list| ==> list[i].id != list[j].id
  }

  ghost predicate StrictlySorted<G>(list: seq<Commitment<G>>) {
    forall i, j :: 0 <= i < j < |list| ==> list[i].id < list[j].id
  }

  lemma {:induction false} InsertSorts<G>(c: Commitment<G>, list: seq<Commitment<G>>)
    requires StrictlySorted(list) && forall i :: 0 <= i < |list| ==> list[i].id != c.id
    ensures StrictlySorted(InsertById(c, list))
  {
    if list != [] && c.id > list[0].id {
      InsertSorts(c, list[1..]);
      var tail := InsertById(c, list[1..]);
      forall i | 0 <= i < |tail| ensures list[0].id < tail[i].id {
        InsertElements(c, list[1..], tail[i]);
      }
    }
  }

  lemma {:induction false} SortSorts<G>(list: seq<Commitment<G>>)
    requires DistinctIds(list)
    ensures StrictlySorted(SortById(list))
  {
    if list != [] {
      SortSorts(list[1..]);
      var tail := SortById(list[1..]);
      forall i | 0 <= i < |tail| ensures tail[i].id != list[0].id {
        SortElements(list[1..], tail[i]);
        var k :| 0 <= k < |list[1..]| && list[1..][k] == tail[i];
        assert list[k + 1] == tail[i];
      }
      InsertSorts(list[0], tail);
    }
  }

  ghost predicate SameElements<T(!new)>(a: seq<T>, b: seq<T>) {
    forall c :: c in a <==> c in b
  }

  lemma {:induction false} SortedUnique<G(!new)>(a: seq<Commitment<G>>, b: seq<Commitment<G>>)
    requires StrictlySorted(a) && StrictlySorted(b) && SameElements(a, b)
    ensures a == b
  {
    assert b != [] ==> b[0] in a;
    if a != [] {
      assert a[0] in b && b[0] in a;
      var i :| 0 <= i < |a| && a[i] == b[0];
      var j :| 0 <= j < |b| && b[j] == a[0];
      assert i == 0 && j == 0;
      forall c ensures c in a[1..] <==> c in b[1..] {
        InTail(a, c);
        InTail(b, c);
      }
      SortedUnique(a[1..], b[1..]);
      assert a == [a[0]] + a[1..] && b == [b[0]] + b[1..];
    }
  }

  lemma InTail<G>(a: seq<Commitment<G>>, c: Commitment<G>)
    requires a != [] && StrictlySorted(a)
    ensures c in a[1..] <==> c in a && c != a[0]
  {
    assert a == [a[0]] + a[1..];
    if c in a[1..] {
      var k :| 0 <= k < |a[1..]| && a[1..][k] == c;
      assert a[k + 1] == c && a[0].id < a[k + 1].id;
    }
  }

  /** The order in which a node happens to hold the commitments does not matter: one per id,
      they sort to the same list, so every node derives the same binding factors. */
  lemma SortCanonical<G(!new)>(a: seq<Commitment<G>>, b: seq<Commitment<G>>)
    requires DistinctIds(a) && DistinctIds(b) && SameElements(a, b)
    ensures SortById(a) == SortById(b)
  {
    SortSorts(a);
    SortSorts(b);
    forall c ensures c in SortById(a) <==> c in SortById(b) {
      SortElements(a, c);
      SortElements(b, c);
    }
    SortedUnique(SortById(a), SortById(b));
  }

  // ----- binding factors and the group commitment

  /** `compute_binding_factors`: sorts the list in place, then one factor per entry. */
  method ComputeBindingFactors<G(!new)>(s: Setup<G>, list: seq<Commitment<G>>)
    returns (sorted: seq<Commitment<G>>, factors: seq<BindingFactor>)
    ensures sorted == SortById(list) && |factors| == |sorted|
    ensures forall i :: 0 <= i < |sorted| ==> factors[i] == BindingFactor(sorted[i].id, s.rho(sorted, sorted[i].id))
    ensures FactorIds(factors) == CommitmentIds(sorted)
  {
    sorted := SortById(list);
    factors := [];
    for i := 0 to |sorted|
      invariant |factors| == i
      invariant forall l :: 0 <= l < i ==> factors[l] == BindingFactor(sorted[l].id, s.rho(sorted, sorted[l].id))
    {
      factors := factors + [BindingFactor(sorted[i].id, s.rho(sorted, sorted[i].id))];
    }
  }

  function FactorIds(factors: seq<BindingFactor>): (ids: seq<int>)
    ensures |ids| == |factors| && forall i :: 0 <= i < |ids| ==> ids[i] == factors[i].id
  {
    seq(|factors|, i requires 0 <= i < |factors| => factors[i].id)
  }

  /** Position k is the first with the given id. */
  predicate FirstAt(ids: seq<int>, id: int, k: int) {
    0 <= k < |ids| && ids[k] == id && forall l :: 0 <= l < k ==> ids[l] != id
  }

  /** `binding_factor_for_participant`: the first factor with the given id. */
  method FindFactor(factors: seq<BindingFactor>, id: int) returns (r: SchemeResult<BindingFactor>)
    ensures r.Ok? ==> r.value in factors && r.value.id == id
    ensures r.Ok? <==> id in FactorIds(factors)
    ensures forall k :: FirstAt(FactorIds(factors), id, k) ==> r == Ok(factors[k])
  {
    for i := 0 to |factors|
      invariant forall l :: 0 <= l < i ==> factors[l].id != id
    {
      if factors[i].id == id {
        assert FactorIds(factors)[i] == id;
        return Ok(factors[i]);
      }
    }
    r := IdNotFound;
  }

  /** `commitment_for_participant`: the first commitment with the given id. */
  method FindCommitment<G>(list: seq<Commitment<G>>, id: int) returns (r: SchemeResult<Commitment<G>>)
    ensures r.Ok? ==> r.value in list && r.value.id == id
    ensures r.Ok? <==> id in CommitmentIds(list)
    ensures forall k :: FirstAt(CommitmentIds(list), id, k) ==> r == Ok(list[k])
  {
    for i := 0 to |list|
      invariant forall l :: 0 <= l < i ==> list[l].id != id
    {
      if list[i].id == id {
        assert CommitmentIds(list)[i] == id;
        return Ok(list[i]);
      }
    }
    r := IdNotFound;
  }

  /** The commitment share of one participant: its hiding commitment times its binding
      commitment to the power of its factor. */
  function ShareCommitment<G(!new)>(s: Setup<G>, sorted: seq<Commitment<G>>, c: Commitment<G>): G {
    s.group.op(c.hiding, s.group.Pow(c.binding, s.rho(sorted, c.id)))
  }

  /** The product of the commitment shares of the entries of `part`. */
  function CommitmentProduct<G(!new)>(s: Setup<G>, sorted: seq<Commitment<G>>, part: seq<Commitment<G>>): G {
    if part == [] then s.group.unit
    else s.group.op(CommitmentProduct(s, sorted, part[..|part| - 1]), ShareCommitment(s, sorted, part[|part| - 1]))
  }

  function GroupCommitment<G(!new)>(s: Setup<G>, sorted: seq<Commitment<G>>): G {
    CommitmentProduct(s, sorted, sorted)
  }

  ghost predicate CommitmentsValid<G(!new)>(s: Setup<G>, list: seq<Commitment<G>>) {
    forall i :: 0 <= i < |list| ==> s.group.elem(list[i].hiding) && s.group.elem(list[i].binding)
  }

  lemma ShareCommitmentMember<G(!new)>(s: Setup<G>, sorted: seq<Commitment<G>>, c: Commitment<G>)
    requires s.Valid() && s.group.elem(c.hiding) && s.group.elem(c.binding)
    ensures s.group.elem(ShareCommitment(s, sorted, c)) && s.group.elem(s.group.Pow(c.binding, s.rho(sorted, c.id)))
  {
    s.group.PowElem(c.binding, s.rho(sorted, c.id));
    assert s.group.Closed(c.hiding, s.group.Pow(c.binding, s.rho(sorted, c.id)));
  }

  lemma {:induction false} CommitmentProductMember<G(!new)>(s: Setup<G>, sorted: seq<Commitment<G>>,
                                                            part: seq<Commitment<G>>)
    requires s.Valid() && CommitmentsValid(s, part)
    ensures s.group.elem(CommitmentProduct(s, sorted, part))
  {
    if part != [] {
      var n := |part| - 1;
      CommitmentProductMember(s, sorted, part[..n]);
      ShareCommitmentMember(s, sorted, part[n]);
      assert s.group.Closed(CommitmentProduct(s, sorted, part[..n]), ShareCommitment(s, sorted, part[n]));
    }
  }

  /** `compute_group_commitment`: with factors computed from the same list the lookup never
      fails, and the product is the group commitment. */
  method ComputeGroupCommitment<G(!new)>(s: Setup<G>, sorted: seq<Commitment<G>>, factors: seq<BindingFactor>)
    returns (r: SchemeResult<G>)
    requires s.Valid() && CommitmentsValid(s, sorted) && |factors| == |sorted|
    requires forall i :: 0 <= i < |sorted| ==> factors[i] == BindingFactor(sorted[i].id, s.rho(sorted, sorted[i].id))
    ensures r == Ok(GroupCommitment(s, sorted))
  {
    var acc := s.group.unit;
    for i := 0 to |sorted|
      invariant acc == CommitmentProduct(s, sorted, sorted[..i])
    {
      assert sorted[..i + 1][..i] == sorted[..i];
      var c := sorted[i];
      assert FactorIds(factors)[i] == c.id;
      var found := FindFactor(factors, c.id);
      var factor := found.value.factor;
      assert factor == s.rho(sorted, c.id);
      CommitmentProductMember(s, sorted, sorted[..i]);
      ShareCommitmentMember(s, sorted, c);
      assert s.group.Assoc(acc, c.hiding, s.group.Pow(c.binding, factor));
      acc := s.group.op(s.group.op(acc, c.hiding), s.group.Pow(c.binding, factor));
    }
    assert sorted[..|sorted|] == sorted;
    r := Ok(acc);
  }

  // ----- signing, verification, aggregation

  /** The response z_i of a signer: d + e rho + lambda x c, reduced. */
  function Response(q: int, nonce: Nonce, rho: int, lambda: int, x: int, c: int): int
    requires q > 0
  {
    ((nonce.hiding + (nonce.binding * rho) % q) % q + (((lambda * x) % q) * c) % q) % q
  }

  /** `partial_sign`: fails exactly when the signer has no commitment in the list. */
  method PartialSign<G(!new)>(s: Setup<G>, nonce: Nonce, list: seq<Commitment<G>>, x: int, id: int)
    returns (r: SchemeResult<(SigShare, G)>)
    requires s.Valid() && CommitmentsValid(s, list) && Reduced(s.q, CommitmentIds(list)) && 0 <= id < s.q
    ensures r.Ok? <==> id in CommitmentIds(list)
    ensures r.Ok? ==>
              r.value == (SigShare(id, HonestResponse(s, SortById(list), nonce, x, id)),
                          GroupCommitment(s, SortById(list)))
  {
    var sorted, factors := ComputeBindingFactors(s, list);
    SortKeeps(s, list);
    var found := FindFactor(factors, id);
    IdsOfSorted(list, id);
    if found.IdNotFound? {
      return IdNotFound;
    }
    var R := ComputeGroupCommitment(s, sorted, factors);
    var lambda := LagrangeCoeff(s.q, CommitmentIds(sorted), id);
    var c := s.challenge(R.value);
    r := Ok((SigShare(id, Response(s.q, nonce, found.value.factor, lambda, x, c)), R.value));
  }

  lemma IdsOfSorted<G>(list: seq<Commitment<G>>, id: int)
    ensures id in CommitmentIds(list) <==> id in CommitmentIds(SortById(list))
  {
    var sorted := SortById(list);
    if id in CommitmentIds(list) {
      var k :| 0 <= k < |list| && CommitmentIds(list)[k] == id;
      SortElements(list, list[k]);
      var j :| 0 <= j < |sorted| && sorted[j] == list[k];
      assert CommitmentIds(sorted)[j] == id;
    }
    if id in CommitmentIds(sorted) {
      var k :| 0 <= k < |sorted| && CommitmentIds(sorted)[k] == id;
      SortElements(list, sorted[k]);
      var j :| 0 <= j < |list| && list[j] == sorted[k];
      assert CommitmentIds(list)[j] == id;
    }
  }

  lemma SortKeeps<G(!new)>(s: Setup<G>, list: seq<Commitment<G>>)
    ensures CommitmentsValid(s, list) ==> CommitmentsValid(s, SortById(list))
    ensures Reduced(s.q, CommitmentIds(list)) ==> Reduced(s.q, CommitmentIds(SortById(list)))
  {
    var sorted := SortById(list);
    forall i | 0 <= i < |sorted|
      ensures exists k :: 0 <= k < |list| && list[k] == sorted[i]
    {
      SortElements(list, sorted[i]);
    }
    forall i | 0 <= i < |sorted| && Reduced(s.q, CommitmentIds(list)) ensures 0 <= sorted[i].id < s.q {
      var k :| 0 <= k < |list| && list[k] == sorted[i];
      assert CommitmentIds(list)[k] == sorted[i].id;
    }
  }

  /** The equation that share verification checks, for the commitment `c` of the signer. */
  ghost predicate ShareEquation<G(!new)>(s: Setup<G>, sorted: seq<Commitment<G>>, c: Commitment<G>, z: int)
    requires s.q > 0 && 1 <= c.id <= |s.h|
  {
    s.group.Pow(s.g, z) == ExpectedShare(s, sorted, c)
  }

  /** What g^z must be: the commitment share times the verification key to the power lambda c. */
  function ExpectedShare<G(!new)>(s: Setup<G>, sorted: seq<Commitment<G>>, c: Commitment<G>): G
    requires s.q > 0 && 1 <= c.id <= |s.h|
  {
    var lambda := Weight(ModField(s.q), CommitmentIds(sorted), c.id);
    s.group.op(ShareCommitment(s, sorted, c),
               s.group.Pow(s.h[c.id - 1], (lambda * s.challenge(GroupCommitment(s, sorted))) % s.q))
  }

  /** `verify_share`: an error exactly when the signer has no commitment in the list, and
      otherwise the truth of the equation for the signer's commitment. */
  method VerifyShare<G(!new)(==)>(s: Setup<G>, share: SigShare, list: seq<Commitment<G>>)
    returns (r: SchemeResult<bool>)
    requires s.Valid() && CommitmentsValid(s, list) && Reduced(s.q, CommitmentIds(list))
    requires 1 <= share.id <= |s.h| && share.id < s.q
    ensures r.Ok? <==> share.id in CommitmentIds(list)
    ensures forall k :: FirstAt(CommitmentIds(list), share.id, k) ==>
              r == Ok(ShareEquation(s, SortById(list), list[k], share.data))
  {
    var found := FindCommitment(list, share.id);
    if found.IdNotFound? {
      return IdNotFound;
    }
    var sorted, factors := ComputeBindingFactors(s, list);
    SortKeeps(s, list);
    IdsOfSorted(list, share.id);
    var ok := CheckEquation(s, share, sorted, factors, found.value);
    r := Ok(ok);
  }

  method FactorOf<G(!new)>(s: Setup<G>, sorted: seq<Commitment<G>>, factors: seq<BindingFactor>, id: int)
    returns (factor: int)
    requires |factors| == |sorted| && FactorIds(factors) == CommitmentIds(sorted) && id in CommitmentIds(sorted)
    requires forall i :: 0 <= i < |sorted| ==> factors[i] == BindingFactor(sorted[i].id, s.rho(sorted, sorted[i].id))
    ensures factor == s.rho(sorted, id)
  {
    var found := FindFactor(factors, id);
    factor := found.value.factor;
  }

  /** The rest of `verify_share`, with the commitment of the signer and the factors. */
  method CheckEquation<G(!new)(==)>(s: Setup<G>, share: SigShare, sorted: seq<Commitment<G>>,
                                    factors: seq<BindingFactor>, c: Commitment<G>) returns (ok: bool)
    requires s.Valid() && CommitmentsValid(s, sorted) && Reduced(s.q, CommitmentIds(sorted)) && |factors| == |sorted|
    requires forall i :: 0 <= i < |sorted| ==> factors[i] == BindingFactor(sorted[i].id, s.rho(sorted, sorted[i].id))
    requires FactorIds(factors) == CommitmentIds(sorted) && share.id in CommitmentIds(sorted)
    requires 1 <= share.id <= |s.h| && share.id < s.q && c.id == share.id
    ensures ok == ShareEquation(s, sorted, c, share.data)
  {
    var factor := FactorOf(s, sorted, factors, share.id);
    var R := ComputeGroupCommitment(s, sorted, factors);
    var rhs := ExpectedOf(s, sorted, c, factor, R.value);
    ok := s.group.Pow(s.g, share.data) == rhs;
  }

  method ExpectedOf<G(!new)>(s: Setup<G>, sorted: seq<Commitment<G>>, c: Commitment<G>, factor: int, R: G)
    returns (rhs: G)
    requires Prime(s.q) && Reduced(s.q, CommitmentIds(sorted)) && 1 <= c.id <= |s.h| && c.id < s.q
    requires factor == s.rho(sorted, c.id) && R == GroupCommitment(s, sorted)
    ensures rhs == ExpectedShare(s, sorted, c)
  {
    var ri := s.group.op(c.hiding, s.group.Pow(c.binding, factor));
    var lambda := LagrangeCoeff(s.q, CommitmentIds(sorted), c.id);
    rhs := s.group.op(ri, s.group.Pow(s.h[c.id - 1], (lambda * s.challenge(R)) % s.q));
  }

  function ShareSum(q: int, shares: seq<SigShare>): int
    requires q > 0
  {
    if shares == [] then 0 else (ShareSum(q, shares[..|shares| - 1]) + shares[|shares| - 1].data) % q
  }

  /** `assemble`: sums the first `threshold` shares. */
  method Assemble<G(!new)>(s: Setup<G>, R: G, threshold: nat, shares: seq<SigShare>) returns (sig: Signature<G>)
    requires s.q > 0 && threshold <= |shares|
    ensures sig == Signature(R, ShareSum(s.q, shares[..threshold]))
  {
    var z := 0;
    for i := 0 to threshold
      invariant z == ShareSum(s.q, shares[..i])
    {
      assert shares[..i + 1][..i] == shares[..i];
      z := (z + shares[i].data) % s.q;
    }
    sig := Signature(R, z);
  }

  /** `verify`: the Schnorr equation g^z = R y^c. */
  ghost predicate Verify<G(!new)>(s: Setup<G>, sig: Signature<G>) {
    s.group.Pow(s.g, sig.z) == s.group.op(sig.R, s.group.Pow(s.y, s.challenge(sig.R)))
  }

  /** Special soundness of the Schnorr equation: two signatures with the same R that verify under different challenges
      determine the discrete logarithm of the public key up to the difference of the challenges. */
  lemma SpecialSoundness<G(!new)>(s: Setup<G>, s': Setup<G>, sig: Signature<G>, sig': Signature<G>)
    requires s.Valid() && s' == s.(challenge := s'.challenge) && sig.R == sig'.R && s.group.elem(sig.R)
    requires Verify(s, sig) && Verify(s', sig')
    ensures s.group.Pow(s.y, s.challenge(sig.R) - s'.challenge(sig.R)) == s.group.Pow(s.g, sig.z - sig'.z)
  {
    s.group.TwoResponses(sig.R, s.g, s.y, s.challenge(sig.R), s'.challenge(sig.R), sig.z, sig'.z);
  }

  // ----- an honest share verifies

  /** g^z for an honest response, factor by factor. */
  lemma ResponsePower<G(!new)>(s: Setup<G>, nonce: Nonce, rho: int, lambda: int, x: int, c: int)
    requires s.Valid()
    ensures s.group.Pow(s.g, Response(s.q, nonce, rho, lambda, x, c))
         == s.group.op(s.group.op(s.group.Pow(s.g, nonce.hiding), s.group.Pow(s.group.Pow(s.g, nonce.binding), rho)),
                       s.group.Pow(s.group.Pow(s.g, x), (lambda * c) % s.q))
  {
    var G, q := s.group, s.q;
    var z := Response(q, nonce, rho, lambda, x, c);
    var er, lc := nonce.binding * rho, (lambda * c) % q;
    ResponseCong(q, nonce, rho, lambda, x, c);
    var k := CongWitness(z, nonce.hiding + er + x * lc, q);
    G.PowPeriod(s.g, q, z, nonce.hiding + er + x * lc, k);
    G.PowAdd(s.g, nonce.hiding + er, x * lc);
    G.PowAdd(s.g, nonce.hiding, er);
    G.PowMul(s.g, nonce.binding, rho);
    G.PowMul(s.g, x, lc);
  }

  lemma ResponseCong(q: int, nonce: Nonce, rho: int, lambda: int, x: int, c: int)
    requires q > 0
    ensures Cong(Response(q, nonce, rho, lambda, x, c), nonce.hiding + nonce.binding * rho + x * ((lambda * c) % q), q)
  {
    var er, lx := nonce.binding * rho, lambda * x;
    ModCong(er, q);
    CongAdd(nonce.hiding, nonce.hiding, er % q, er, q);
    ModCong(nonce.hiding + er % q, q);
    ModCong(lx, q);
    CongMul(lx % q, lx, c, c, q);
    ModCong((lx % q) * c, q);
    CongAdd((nonce.hiding + er % q) % q, nonce.hiding + er, ((lx % q) * c) % q, lx * c, q);
    ModCong((nonce.hiding + er % q) % q + ((lx % q) * c) % q, q);
    assert lx * c == x * (lambda * c);
    ModCong(lambda * c, q);
    CongMul(x, x, (lambda * c) % q, lambda * c, q);
    CongAdd(nonce.hiding + er, nonce.hiding + er, x * ((lambda * c) % q), x * (lambda * c), q);
  }

  /** The response that `partial_sign` computes for a commitment list. */
  function HonestResponse<G(!new)>(s: Setup<G>, sorted: seq<Commitment<G>>, nonce: Nonce, x: int, id: int): int
    requires s.q > 0
  {
    Response(s.q, nonce, s.rho(sorted, id), Weight(ModField(s.q), CommitmentIds(sorted), id), x,
             s.challenge(GroupCommitment(s, sorted)))
  }

  /** The response of section 5.2 of RFC 9591: d + e rho_i + lambda_i x c modulo q. */
  lemma HonestResponseIs<G(!new)>(s: Setup<G>, sorted: seq<Commitment<G>>, nonce: Nonce, x: int, id: int)
    requires s.q > 0
    ensures 0 <= HonestResponse(s, sorted, nonce, x, id) < s.q
    ensures Cong(HonestResponse(s, sorted, nonce, x, id),
                 nonce.hiding + nonce.binding * s.rho(sorted, id)
                 + Weight(ModField(s.q), CommitmentIds(sorted), id) * x * s.challenge(GroupCommitment(s, sorted)), s.q)
  {
    ResponseIs(s.q, nonce, s.rho(sorted, id), Weight(ModField(s.q), CommitmentIds(sorted), id), x,
               s.challenge(GroupCommitment(s, sorted)));
  }

  lemma ResponseIs(q: int, nonce: Nonce, rho: int, lambda: int, x: int, c: int)
    requires q > 0
    ensures 0 <= Response(q, nonce, rho, lambda, x, c) < q
    ensures Cong(Response(q, nonce, rho, lambda, x, c), nonce.hiding + nonce.binding * rho + lambda * x * c, q)
  {
    var base := nonce.hiding + nonce.binding * rho;
    ResponseCong(q, nonce, rho, lambda, x, c);
    ModCong(lambda * c, q);
    CongMul(x, x, (lambda * c) % q, lambda * c, q);
    CongAdd(base, base, x * ((lambda * c) % q), x * (lambda * c), q);
    assert x * (lambda * c) == lambda * x * c;
  }

  /** The exponent of the group commitment: the sum of d_i + e_i rho_i over the nonces behind the commitments. */
  function NonceSum<G(!new)>(s: Setup<G>, sorted: seq<Commitment<G>>, part: seq<Commitment<G>>, nonces: seq<Nonce>): int
    requires |part| == |nonces|
  {
    if part == [] then 0
    else
      var n := |part| - 1;
      NonceSum(s, sorted, part[..n], nonces[..n]) + nonces[n].hiding + nonces[n].binding * s.rho(sorted, part[n].id)
  }

  lemma {:induction false} GroupCommitmentPower<G(!new)>(s: Setup<G>, sorted: seq<Commitment<G>>,
                                                        part: seq<Commitment<G>>, nonces: seq<Nonce>)
    requires s.Valid() && |part| == |nonces|
    requires forall i :: 0 <= i < |part| ==>
               part[i].hiding == s.group.Pow(s.g, nonces[i].hiding)
                 && part[i].binding == s.group.Pow(s.g, nonces[i].binding)
    ensures CommitmentProduct(s, sorted, part) == s.group.Pow(s.g, NonceSum(s, sorted, part, nonces))
  {
    if part != [] {
      var n := |part| - 1;
      GroupCommitmentPower(s, sorted, part[..n], nonces[..n]);
      var e := ShareCommitmentPower(s, sorted, part[n], nonces[n]);
      s.group.PowAdd(s.g, NonceSum(s, sorted, part[..n], nonces[..n]), e);
    }
  }

  lemma ShareCommitmentPower<G(!new)>(s: Setup<G>, sorted: seq<Commitment<G>>, c: Commitment<G>, nonce: Nonce)
    returns (e: int)
    requires s.Valid() && c.hiding == s.group.Pow(s.g, nonce.hiding) && c.binding == s.group.Pow(s.g, nonce.binding)
    ensures e == nonce.hiding + nonce.binding * s.rho(sorted, c.id)
    ensures ShareCommitment(s, sorted, c) == s.group.Pow(s.g, e)
  {
    var k := nonce.binding * s.rho(sorted, c.id);
    e := nonce.hiding + k;
    s.group.PowMul(s.g, nonce.binding, s.rho(sorted, c.id));
    s.group.PowAdd(s.g, nonce.hiding, k);
  }

  /** Completeness: the share that `partial_sign` makes from the nonce behind the signer's own
      commitment and from the key share behind its verification key satisfies the equation
      that `verify_share` checks, for every commitment list. */
  lemma HonestShareVerifies<G(!new)>(s: Setup<G>, sorted: seq<Commitment<G>>, c: Commitment<G>, nonce: Nonce, x: int)
    requires s.Valid() && 1 <= c.id <= |s.h|
    requires s.h[c.id - 1] == s.group.Pow(s.g, x)
    requires c.hiding == s.group.Pow(s.g, nonce.hiding) && c.binding == s.group.Pow(s.g, nonce.binding)
    ensures ShareEquation(s, sorted, c, HonestResponse(s, sorted, nonce, x, c.id))
  {
    ResponsePower(s, nonce, s.rho(sorted, c.id), Weight(ModField(s.q), CommitmentIds(sorted), c.id), x,
                  s.challenge(GroupCommitment(s, sorted)));
  }

  // ----- aggregation

  /** The product of f(id) over a list of ids. */
  function ProductOver<G(!new)>(group: AbelianGroup<G>, f: int -> G, ids: seq<int>): G {
    if ids == [] then group.unit
    else group.op(ProductOver(group, f, ids[..|ids| - 1]), f(ids[|ids| - 1]))
  }

  lemma {:induction false} ProductMember<G(!new)>(group: AbelianGroup<G>, f: int -> G, ids: seq<int>)
    requires group.Lawful() && forall i :: i in ids ==> group.elem(f(i))
    ensures group.elem(ProductOver(group, f, ids))
  {
    if ids != [] {
      var n := |ids| - 1;
      ProductMember(group, f, ids[..n]);
      var last := ids[n];
      assert last in ids;
      assert group.elem(f(last));
      assert group.Closed(ProductOver(group, f, ids[..n]), f(last));
    }
  }

  /** One factor can be taken out from any position. */
  lemma {:induction false} ProductRemove<G(!new)>(group: AbelianGroup<G>, f: int -> G, ids: seq<int>, k: int)
    requires group.Lawful() && (forall i :: i in ids ==> group.elem(f(i))) && 0 <= k < |ids|
    ensures ProductOver(group, f, ids) == group.op(ProductOver(group, f, ids[..k] + ids[k + 1..]), f(ids[k]))
  {
    var n := |ids| - 1;
    if k == n {
      assert ids[..k] + ids[k + 1..] == ids[..n];
    } else {
      var front := ids[..n];
      ProductRemove(group, f, front, k);
      var rest := ids[..k] + ids[k + 1..];
      assert rest[..|rest| - 1] == front[..k] + front[k + 1..] && rest[|rest| - 1] == ids[n];
      var p, a, b := ProductOver(group, f, rest[..|rest| - 1]), f(ids[k]), f(ids[n]);
      ProductMember(group, f, rest[..|rest| - 1]);
      assert group.Assoc(p, a, b) && group.Comm(a, b) && group.Assoc(p, b, a);
    }
  }

  /** A product over distinct ids does not depend on their order. */
  lemma {:induction false} ProductPermute<G(!new)>(group: AbelianGroup<G>, f: int -> G, a: seq<int>, b: seq<int>)
    requires group.Lawful() && forall i :: i in a ==> group.elem(f(i))
    requires Distinct(a) && Distinct(b) && SameElements(a, b)
    ensures ProductOver(group, f, a) == ProductOver(group, f, b)
  {
    assert b != [] ==> b[0] in a;
    if a != [] {
      var n := |a| - 1;
      assert a[n] in b;
      var k :| 0 <= k < |b| && b[k] == a[n];
      var rest := b[..k] + b[k + 1..];
      assert forall i :: i in b ==> i in a;
      ProductRemove(group, f, b, k);
      RemoveBoth(a, n, b, k);
      assert a[..n] + a[n + 1..] == a[..n];
      ProductPermute(group, f, a[..n], rest);
    }
  }

  lemma RemoveBoth(a: seq<int>, m: int, b: seq<int>, k: int)
    requires Distinct(a) && Distinct(b) && SameElements(a, b)
    requires 0 <= m < |a| && 0 <= k < |b| && a[m] == b[k]
    ensures SameElements(a[..m] + a[m + 1..], b[..k] + b[k + 1..])
    ensures Distinct(b[..k] + b[k + 1..])
  {
    var left, rest := a[..m] + a[m + 1..], b[..k] + b[k + 1..];
    forall i ensures i in left <==> i in rest {
      NotTwice(a, m, i);
      NotTwice(b, k, i);
    }
    forall i, j | 0 <= i < j < |rest| ensures rest[i] != rest[j] {
      assert rest[i] == b[if i < k then i else i + 1] && rest[j] == b[if j < k then j else j + 1];
    }
  }

  lemma NotTwice(a: seq<int>, k: int, i: int)
    requires Distinct(a) && 0 <= k < |a|
    ensures i in a[..k] + a[k + 1..] <==> i in a && i != a[k]
  {
    assert a == a[..k] + [a[k]] + a[k + 1..];
    var rest := a[..k] + a[k + 1..];
    if i in rest {
      var j :| 0 <= j < |rest| && rest[j] == i;
      assert i == a[if j < k then j else j + 1];
    }
  }

  ghost predicate SharesMatch<G(!new)>(sorted: seq<Commitment<G>>, shares: seq<SigShare>, zs: map<int, int>) {
    && Distinct(ShareIds(shares)) && SameElements(ShareIds(shares), CommitmentIds(sorted))
    && (forall i :: 0 <= i < |shares| ==> shares[i].id in zs && zs[shares[i].id] == shares[i].data)
  }

  function ShareIds(shares: seq<SigShare>): (ids: seq<int>)
    ensures |ids| == |shares| && forall i :: 0 <= i < |ids| ==> ids[i] == shares[i].id
  {
    seq(|shares|, i requires 0 <= i < |shares| => shares[i].id)
  }

  /** g to the power of the share of `id`; the unit where there is none. */
  function SharePower<G(!new)>(s: Setup<G>, zs: map<int, int>): int -> G {
    (id: int) => if id in zs then s.group.Pow(s.g, zs[id]) else s.group.unit
  }

  /** g raised to the sum of the shares is the product over the shares. */
  lemma {:induction false} SumPower<G(!new)>(s: Setup<G>, shares: seq<SigShare>, zs: map<int, int>)
    requires s.Valid()
    requires forall i :: 0 <= i < |shares| ==> shares[i].id in zs && zs[shares[i].id] == shares[i].data
    ensures s.group.Pow(s.g, ShareSum(s.q, shares)) == ProductOver(s.group, SharePower(s, zs), ShareIds(shares))
  {
    if shares != [] {
      var n := |shares| - 1;
      SumPower(s, shares[..n], zs);
      assert ShareIds(shares)[..n] == ShareIds(shares[..n]);
      var t := ShareSum(s.q, shares[..n]) + shares[n].data;
      ModCong(t, s.q);
      var k := CongWitness(t % s.q, t, s.q);
      s.group.PowPeriod(s.g, s.q, t % s.q, t, k);
      s.group.PowAdd(s.g, ShareSum(s.q, shares[..n]), shares[n].data);
    }
  }

  /** How far the share of commitment `c` is from satisfying its equation: g^z divided by the
      value the equation expects, so the unit exactly when the share verifies. */
  function Deviation<G(!new)>(s: Setup<G>, sorted: seq<Commitment<G>>, c: Commitment<G>, z: int): G
    requires s.q > 0 && 1 <= c.id <= |s.h|
  {
    s.group.Div(s.group.Pow(s.g, z), ExpectedShare(s, sorted, c))
  }

  function Deviations<G(!new)>(s: Setup<G>, sorted: seq<Commitment<G>>, part: seq<Commitment<G>>, zs: map<int, int>): G
    requires s.q > 0 && forall i :: 0 <= i < |part| ==> 1 <= part[i].id <= |s.h| && part[i].id in zs
  {
    if part == [] then s.group.unit
    else
      var n := |part| - 1;
      s.group.op(Deviations(s, sorted, part[..n], zs), Deviation(s, sorted, part[n], zs[part[n].id]))
  }

  /** The product of the verification keys raised to lambda c. */
  function KeyProduct<G(!new)>(s: Setup<G>, sorted: seq<Commitment<G>>, part: seq<Commitment<G>>): G
    requires s.q > 0 && forall i :: 0 <= i < |part| ==> 1 <= part[i].id <= |s.h|
  {
    if part == [] then s.group.unit
    else
      var n := |part| - 1;
      var lambda := Weight(ModField(s.q), CommitmentIds(sorted), part[n].id);
      s.group.op(KeyProduct(s, sorted, part[..n]),
                 s.group.Pow(s.h[part[n].id - 1], (lambda * s.challenge(GroupCommitment(s, sorted))) % s.q))
  }

  ghost predicate PartCovered<G(!new)>(s: Setup<G>, part: seq<Commitment<G>>, zs: map<int, int>) {
    && CommitmentsValid(s, part)
    && (forall i :: 0 <= i < |part| ==> 1 <= part[i].id <= |s.h| && part[i].id in zs)
  }

  lemma ExpectedMember<G(!new)>(s: Setup<G>, sorted: seq<Commitment<G>>, c: Commitment<G>, e: int, z: int)
    requires s.Valid() && s.group.elem(c.hiding) && s.group.elem(c.binding) && 1 <= c.id <= |s.h|
    requires e == (Weight(ModField(s.q), CommitmentIds(sorted), c.id) * s.challenge(GroupCommitment(s, sorted))) % s.q
    ensures s.group.elem(ExpectedShare(s, sorted, c)) && s.group.elem(s.group.Pow(s.h[c.id - 1], e))
    ensures s.group.elem(Deviation(s, sorted, c, z))
    ensures s.group.Pow(s.g, z) == s.group.op(ExpectedShare(s, sorted, c), Deviation(s, sorted, c, z))
  {
    var G := s.group;
    ShareCommitmentMember(s, sorted, c);
    G.PowElem(s.h[c.id - 1], e);
    assert G.Closed(ShareCommitment(s, sorted, c), G.Pow(s.h[c.id - 1], e));
    var t := ExpectedShare(s, sorted, c);
    G.PowElem(s.g, z);
    G.DivOp(G.Pow(s.g, z), t);
    assert G.Comm(Deviation(s, sorted, c, z), t);
  }

  /** The product over the signers of g^z splits into commitments, keys and deviations. */
  lemma {:induction false} ProductSplits<G(!new)>(s: Setup<G>, sorted: seq<Commitment<G>>, part: seq<Commitment<G>>,
                                                  zs: map<int, int>)
    requires s.Valid() && PartCovered(s, part, zs)
    ensures s.group.elem(KeyProduct(s, sorted, part)) && s.group.elem(Deviations(s, sorted, part, zs))
    ensures s.group.elem(CommitmentProduct(s, sorted, part))
    ensures ProductOver(s.group, SharePower(s, zs), CommitmentIds(part))
         == s.group.op(s.group.op(CommitmentProduct(s, sorted, part), KeyProduct(s, sorted, part)),
                       Deviations(s, sorted, part, zs))
  {
    var G := s.group;
    CommitmentProductMember(s, sorted, part);
    if part == [] {
      assert G.Unit(G.unit);
    } else {
      var n := |part| - 1;
      var c, rest := part[n], part[..n];
      assert CommitmentIds(part)[..n] == CommitmentIds(rest);
      ProductSplits(s, sorted, rest, zs);
      var e := (Weight(ModField(s.q), CommitmentIds(sorted), c.id) * s.challenge(GroupCommitment(s, sorted))) % s.q;
      ExpectedMember(s, sorted, c, e, zs[c.id]);
      ShareCommitmentMember(s, sorted, c);
      var C, K, D := CommitmentProduct(s, sorted, rest), KeyProduct(s, sorted, rest), Deviations(s, sorted, rest, zs);
      var c', k', d' := ShareCommitment(s, sorted, c), G.Pow(s.h[c.id - 1], e), Deviation(s, sorted, c, zs[c.id]);
      assert G.Closed(C, K) && G.Closed(c', k') && G.Closed(K, k') && G.Closed(D, d');
      G.Shuffle(G.op(C, K), D, G.op(c', k'), d');
      G.Shuffle(C, K, c', k');
    }
  }

  /** The keys recombine to the public key raised to the challenge. */
  lemma {:induction false} KeysRecombine<G(!new)>(s: Setup<G>, sorted: seq<Commitment<G>>, part: seq<Commitment<G>>,
                                                  keys: seq<G>)
    requires s.Valid() && |keys| == |part|
    requires forall i :: 0 <= i < |part| ==> 1 <= part[i].id <= |s.h| && keys[i] == s.h[part[i].id - 1]
    requires forall i :: 0 <= i < |part| ==> s.group.Pow(keys[i], s.q) == s.group.unit
    ensures KeyProduct(s, sorted, part)
         == s.group.Pow(WeightedProduct(s.group, s.q, CommitmentIds(sorted), CommitmentIds(part), keys),
                        s.challenge(GroupCommitment(s, sorted)))
  {
    var G, ids := s.group, CommitmentIds(sorted);
    var c := s.challenge(GroupCommitment(s, sorted));
    if part == [] {
      G.PowUnit(c);
    } else {
      var n := |part| - 1;
      assert CommitmentIds(part)[..n] == CommitmentIds(part[..n]);
      KeysRecombine(s, sorted, part[..n], keys[..n]);
      var lambda := Weight(ModField(s.q), ids, part[n].id);
      WeightedProductMember(G, s.q, ids, CommitmentIds(part[..n]), keys[..n]);
      G.PowElem(keys[n], lambda);
      G.PowOp(WeightedProduct(G, s.q, ids, CommitmentIds(part[..n]), keys[..n]), G.Pow(keys[n], lambda), c);
      G.PowMul(keys[n], lambda, c);
      ModCong(lambda * c, s.q);
      var k := CongWitness((lambda * c) % s.q, lambda * c, s.q);
      G.PowPeriod(keys[n], s.q, (lambda * c) % s.q, lambda * c, k);
    }
  }

  /** The keys come from a sharing: y = g^f(0) and the key of party j is g^f(j), for the
      polynomial with coefficients `f`, constant term last. */
  ghost predicate KeysShared<G(!new)>(s: Setup<G>, f: seq<int>) {
    && 0 < |f| && s.q > 0 && Reduced(s.q, f) && |s.h| < s.q
    && s.y == s.group.Pow(s.g, f[|f| - 1])
    && (forall j :: 1 <= j <= |s.h| ==> s.h[j - 1] == s.group.Pow(s.g, Eval(ModField(s.q), f, j)))
  }

  lemma KeyPeriod<G(!new)>(s: Setup<G>, e: int)
    requires s.Valid()
    ensures s.group.Pow(s.group.Pow(s.g, e), s.q) == s.group.unit
  {
    s.group.PowMul(s.g, e, s.q);
    s.group.PowMul(s.g, s.q, e);
    s.group.PowUnit(e);
    assert e * s.q == s.q * e;
  }

  /** The verification keys of the signers, as shares of the public key. */
  ghost function KeyShares<G(!new)>(s: Setup<G>, sorted: seq<Commitment<G>>): (shares: seq<DlShare<G>>)
    requires forall i :: 0 <= i < |sorted| ==> 1 <= sorted[i].id <= |s.h|
    ensures |shares| == |sorted|
    ensures forall i :: 0 <= i < |sorted| ==> shares[i].id == sorted[i].id && shares[i].data == s.h[sorted[i].id - 1]
  {
    seq(|sorted|, i requires 0 <= i < |sorted| => DlShare(sorted[i].id, s.h[sorted[i].id - 1]))
  }

  lemma KeySharesCombine<G(!new)>(s: Setup<G>, f: seq<int>, sorted: seq<Commitment<G>>, shares: seq<DlShare<G>>)
    requires s.Valid() && KeysShared(s, f)
    requires Distinct(CommitmentIds(sorted)) && |f| <= |sorted|
    requires forall i :: 0 <= i < |sorted| ==> 1 <= sorted[i].id <= |s.h|
    requires shares == KeyShares(s, sorted)
    ensures WeightedProduct(s.group, s.q, CommitmentIds(sorted), CommitmentIds(sorted), Data(shares)) == s.y
  {
    assert Ids(shares) == CommitmentIds(sorted);
    Reconstructs(s.group, s.g, s.q, f, shares);
  }

  lemma KeySharesOrder<G(!new)>(s: Setup<G>, f: seq<int>, sorted: seq<Commitment<G>>, i: nat)
    requires s.Valid() && KeysShared(s, f) && i < |sorted| && 1 <= sorted[i].id <= |s.h|
    ensures s.group.Pow(s.h[sorted[i].id - 1], s.q) == s.group.unit
  {
    KeyPeriod(s, Eval(ModField(s.q), f, sorted[i].id));
  }

  lemma KeysOfQuorum<G(!new)>(s: Setup<G>, f: seq<int>, sorted: seq<Commitment<G>>)
    requires s.Valid() && KeysShared(s, f)
    requires Distinct(CommitmentIds(sorted)) && |f| <= |sorted|
    requires forall i :: 0 <= i < |sorted| ==> 1 <= sorted[i].id <= |s.h|
    ensures KeyProduct(s, sorted, sorted) == s.group.Pow(s.y, s.challenge(GroupCommitment(s, sorted)))
  {
    var shares := KeyShares(s, sorted);
    var keys := Data(shares);
    forall i | 0 <= i < |sorted| ensures s.group.Pow(keys[i], s.q) == s.group.unit {
      KeySharesOrder(s, f, sorted, i);
    }
    KeySharesCombine(s, f, sorted, shares);
    KeysRecombine(s, sorted, sorted, keys);
  }

  /** Aggregation, exactly: for a quorum of signers with one commitment and one share each,
      in any order, the assembled signature passes `verify` if and only if the deviations of
      the shares multiply to the unit. */
  lemma AggregateVerifiesIff<G(!new)>(s: Setup<G>, f: seq<int>, list: seq<Commitment<G>>, shares: seq<SigShare>,
                                      zs: map<int, int>)
    requires s.Valid() && KeysShared(s, f)
    requires DistinctIds(list) && |f| <= |list|
    requires SharesMatch(SortById(list), shares, zs) && PartCovered(s, SortById(list), zs)
    ensures var sorted := SortById(list);
            Verify(s, Signature(GroupCommitment(s, sorted), ShareSum(s.q, shares)))
            <==> Deviations(s, sorted, sorted, zs) == s.group.unit
  {
    var G, sorted := s.group, SortById(list);
    SortSorts(list);
    if list != [] {
      SortElements(list, list[0]);
    }
    SumPower(s, shares, zs);
    forall i | i in ShareIds(shares) ensures G.elem(SharePower(s, zs)(i)) {
      if i in zs {
        G.PowElem(s.g, zs[i]);
      }
    }
    ProductPermute(G, SharePower(s, zs), ShareIds(shares), CommitmentIds(sorted));
    ProductSplits(s, sorted, sorted, zs);
    KeysOfQuorum(s, f, sorted);
    var e, d := G.op(GroupCommitment(s, sorted), KeyProduct(s, sorted, sorted)), Deviations(s, sorted, sorted, zs);
    assert G.Closed(GroupCommitment(s, sorted), KeyProduct(s, sorted, sorted));
    assert G.Unit(e) && G.Comm(e, d) && G.Comm(e, G.unit);
    if G.op(e, d) == e {
      G.Cancel(d, G.unit, e);
    }
  }

  lemma {:induction false} DeviationsUnit<G(!new)>(s: Setup<G>, sorted: seq<Commitment<G>>, part: seq<Commitment<G>>,
                                                   zs: map<int, int>)
    requires s.Valid() && PartCovered(s, part, zs)
    requires forall i :: 0 <= i < |part| ==> ShareEquation(s, sorted, part[i], zs[part[i].id])
    ensures Deviations(s, sorted, part, zs) == s.group.unit
  {
    if part != [] {
      var n := |part| - 1;
      DeviationsUnit(s, sorted, part[..n], zs);
      DeviationUnitIff(s, sorted, part[n], zs[part[n].id]);
      assert s.group.Unit(s.group.unit);
    }
  }

  lemma DeviationUnitIff<G(!new)>(s: Setup<G>, sorted: seq<Commitment<G>>, c: Commitment<G>, z: int)
    requires s.Valid() && s.group.elem(c.hiding) && s.group.elem(c.binding) && 1 <= c.id <= |s.h|
    ensures ShareEquation(s, sorted, c, z) <==> Deviation(s, sorted, c, z) == s.group.unit
  {
    var e := (Weight(ModField(s.q), CommitmentIds(sorted), c.id) * s.challenge(GroupCommitment(s, sorted))) % s.q;
    ExpectedMember(s, sorted, c, e, z);
    assert s.group.Unit(ExpectedShare(s, sorted, c)) && s.group.Inverse(ExpectedShare(s, sorted, c));
  }

  /** Soundness of the share check: if every share satisfies its equation, the assembled
      signature passes `verify`. */
  lemma VerifiedSharesAggregate<G(!new)>(s: Setup<G>, f: seq<int>, list: seq<Commitment<G>>, shares: seq<SigShare>,
                                         zs: map<int, int>)
    requires s.Valid() && KeysShared(s, f)
    requires DistinctIds(list) && |f| <= |list|
    requires SharesMatch(SortById(list), shares, zs) && PartCovered(s, SortById(list), zs)
    requires forall i :: 0 <= i < |SortById(list)| ==>
               ShareEquation(s, SortById(list), SortById(list)[i], zs[SortById(list)[i].id])
    ensures Verify(s, Signature(GroupCommitment(s, SortById(list)), ShareSum(s.q, shares)))
  {
    DeviationsUnit(s, SortById(list), SortById(list), zs);
    AggregateVerifiesIff(s, f, list, shares, zs);
  }

  /** The last deviation alone, or the others alone, when the rest is the unit. */
  lemma DeviationsLast<G(!new)>(s: Setup<G>, sorted: seq<Commitment<G>>, part: seq<Commitment<G>>, zs: map<int, int>,
                                n: nat)
    requires s.Valid() && PartCovered(s, part, zs) && n == |part| - 1
    ensures ShareEquation(s, sorted, part[n], zs[part[n].id]) ==>
              Deviations(s, sorted, part, zs) == Deviations(s, sorted, part[..n], zs)
    ensures Deviations(s, sorted, part[..n], zs) == s.group.unit && Deviations(s, sorted, part, zs) == s.group.unit ==>
              ShareEquation(s, sorted, part[n], zs[part[n].id])
  {
    var G := s.group;
    var e := (Weight(ModField(s.q), CommitmentIds(sorted), part[n].id) * s.challenge(GroupCommitment(s, sorted))) % s.q;
    ExpectedMember(s, sorted, part[n], e, zs[part[n].id]);
    DeviationUnitIff(s, sorted, part[n], zs[part[n].id]);
    ProductSplits(s, sorted, part[..n], zs);
    var d, rest := Deviation(s, sorted, part[n], zs[part[n].id]), Deviations(s, sorted, part[..n], zs);
    assert G.Comm(G.unit, d) && G.Unit(d) && G.Unit(rest);
  }

  lemma {:induction false} OneDeviation<G(!new)>(s: Setup<G>, sorted: seq<Commitment<G>>, part: seq<Commitment<G>>,
                                                 zs: map<int, int>, bad: int)
    requires s.Valid() && PartCovered(s, part, zs) && 0 <= bad < |part|
    requires forall i :: 0 <= i < |part| ==> (ShareEquation(s, sorted, part[i], zs[part[i].id]) <==> i != bad)
    ensures Deviations(s, sorted, part, zs) != s.group.unit
    decreases |part|
  {
    var n := |part| - 1;
    DeviationsLast(s, sorted, part, zs, n);
    if bad == n {
      DeviationsUnit(s, sorted, part[..n], zs);
    } else {
      OneDeviation(s, sorted, part[..n], zs, bad);
    }
  }

  /** A single share that does not satisfy its equation is always visible in the result: the
      assembled signature then fails `verify`. */
  lemma OneBadShareIsCaught<G(!new)>(s: Setup<G>, f: seq<int>, list: seq<Commitment<G>>, shares: seq<SigShare>,
                                     zs: map<int, int>, bad: int)
    requires s.Valid() && KeysShared(s, f)
    requires DistinctIds(list) && |f| <= |list|
    requires SharesMatch(SortById(list), shares, zs) && PartCovered(s, SortById(list), zs)
    requires 0 <= bad < |SortById(list)|
    requires forall i :: 0 <= i < |SortById(list)| ==>
               (ShareEquation(s, SortById(list), SortById(list)[i], zs[SortById(list)[i].id]) <==> i != bad)
    ensures !Verify(s, Signature(GroupCommitment(s, SortById(list)), ShareSum(s.q, shares)))
  {
    OneDeviation(s, SortById(list), SortById(list), zs, bad);
    AggregateVerifiesIff(s, f, list, shares, zs);
  }
}
