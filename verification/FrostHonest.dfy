/** A run among honest signers: every commitment and share is made by `commit` and `partial_sign`. */
module FrostHonest {
  import opened Options
  import Interpolation
  import opened FrostScheme
  import opened FrostProtocol
  import opened FrostEndToEnd

  /** What the signers hold and send: key shares, nonces, commitments to the nonces, and signature shares. */
  datatype Parties<!G> = Parties(keys: map<int, int>, nonces: map<int, Nonce>, commitments: map<int, Commitment<G>>,
                                 shares: map<int, SigShare>)

  // ----- only what the signers send is collected

  /** A message of an honest signer; what others send is ignored by `update`. */
  ghost predicate HonestMessage<G(!new)>(p: Parties<G>, m: FrostMessage<G>) {
    match m.data
    case CommitmentData(c) => m.id in p.commitments ==> c == p.commitments[m.id]
    case ShareData(share) => m.id in p.shares ==> share == p.shares[m.id]
    case _ => true
  }

  /** The node itself commits and signs like everyone else. */
  ghost predicate HonestNode<G(!new)>(cfg: FrostConfig<G>, p: Parties<G>) {
    && p.commitments.Keys == SignerSet(cfg.signers) == p.shares.Keys
    && (cfg.self in cfg.signers ==> cfg.self in p.commitments && cfg.commit.0 == p.commitments[cfg.self])
    && (cfg.self in cfg.signers && cfg.sign(cfg.commit.1, p.commitments).Some? ==>
          cfg.self in p.shares && cfg.sign(cfg.commit.1, p.commitments).value == p.shares[cfg.self])
  }

  ghost predicate Collected<G(!new)>(p: Parties<G>, commitments: map<int, Commitment<G>>, shares: map<int, SigShare>) {
    && (forall id :: id in commitments ==> id in p.commitments && commitments[id] == p.commitments[id])
    && (forall id :: id in shares ==> id in p.shares && shares[id] == p.shares[id])
  }

  lemma UpdateCollects<G(!new)>(cfg: FrostConfig<G>, p: Parties<G>, st: FrostState<G>, m: FrostMessage<G>)
    requires HonestNode(cfg, p) && HonestMessage(p, m) && Collected(p, st.commitments, st.shares)
    requires UpdateSpec(cfg, st, m).Continue?
    ensures Collected(p, UpdateSpec(cfg, st, m).state.commitments, UpdateSpec(cfg, st, m).state.shares)
  {
    MembersAreSigners(cfg.signers, m.id);
  }

  lemma RoundCollects<G(!new)>(cfg: FrostConfig<G>, p: Parties<G>, s1: FrostState<G>)
    requires HonestNode(cfg, p) && Collected(p, s1.commitments, s1.shares)
    requires GoodConfig(cfg) && FrostProtocol.Invariant(cfg, s1)
    requires ReadyForNextRound(cfg, s1) && !ReadyToFinalize(cfg, s1) && DoRoundSpec(cfg, s1).Continue?
    ensures Collected(p, DoRoundSpec(cfg, s1).state.commitments, DoRoundSpec(cfg, s1).state.shares)
  {
    RoundKeeps(cfg, s1);
    SameMap(s1.commitments, p.commitments);
    MembersAreSigners(cfg.signers, cfg.self);
  }

  lemma {:induction false} RunCollects<G(!new)>(cfg: FrostConfig<G>, p: Parties<G>, st: FrostState<G>,
                                               inbox: seq<FrostMessage<G>>)
    requires HonestNode(cfg, p) && Collected(p, st.commitments, st.shares)
    requires GoodConfig(cfg) && FrostProtocol.Invariant(cfg, st)
    requires forall i :: 0 <= i < |inbox| ==> HonestMessage(p, inbox[i])
    ensures var r := RunSpec(cfg, st, inbox).result;
            r.Some? ==> Collected(p, r.value.commitments, r.value.shares)
    decreases |inbox|
  {
    if inbox != [] {
      var m := inbox[0];
      StepIsGood(cfg, st, m);
      if UpdateSpec(cfg, st, m).Continue? {
        UpdateCollects(cfg, p, st, m);
        UpdateKeeps(cfg, st, m);
        var s1 := UpdateSpec(cfg, st, m).state;
        if ReadyForNextRound(cfg, s1) && !ReadyToFinalize(cfg, s1) && DoRoundSpec(cfg, s1).Continue? {
          RoundCollects(cfg, p, s1);
        }
      }
      var step := StepSpec(cfg, st, m);
      if step.Next? {
        RunCollects(cfg, p, step.state, inbox[1..]);
      }
    }
  }

  /** A finished run aggregates exactly the commitments and shares of the signers. */
  lemma HonestRunAggregates<G(!new)>(cfg: FrostConfig<G>, p: Parties<G>, inbox: seq<FrostMessage<G>>,
                                     a: Aggregation<Commitment<G>, SigShare>)
    requires HonestNode(cfg, p) && GoodConfig(cfg) && ExecuteSpec(cfg, inbox).result == Some(a)
    requires forall i :: 0 <= i < |inbox| ==> HonestMessage(p, inbox[i])
    ensures a.commitments == p.commitments && a.shares == p.shares
  {
    EveryRunIsSafe(cfg, inbox);
    FirstStateInvariant(cfg);
    FirstCollects(cfg, p);
    RunCollects(cfg, p, FirstState(cfg), inbox);
    SameMap(a.commitments, p.commitments);
    SameMap(a.shares, p.shares);
  }

  lemma FirstCollects<G(!new)>(cfg: FrostConfig<G>, p: Parties<G>)
    requires HonestNode(cfg, p)
    ensures Collected(p, FirstState(cfg).commitments, FirstState(cfg).shares)
  {
  }

  lemma SameMap<V>(a: map<int, V>, b: map<int, V>)
    requires a.Keys == b.Keys && forall id :: id in a ==> id in b && a[id] == b[id]
    ensures a == b
  {
    forall id | id in b ensures id in a && a[id] == b[id] {
      assert id in b.Keys;
      assert id in a.Keys;
    }
  }

  // ----- what the signers send verifies

  /** Keys that match the verification keys, commitments that match the nonces, and shares as `partial_sign`
      makes them over the sorted commitments of all signers. */
  ghost predicate HonestParties<G(!new)>(s: FrostScheme.Setup<G>, sorted: seq<Commitment<G>>, p: Parties<G>) {
    && s.q > 0 && p.keys.Keys == p.nonces.Keys == p.commitments.Keys == p.shares.Keys
    && (forall id :: id in p.commitments ==>
          && 1 <= id <= |s.h| && s.h[id - 1] == s.group.Pow(s.g, p.keys[id])
          && p.commitments[id] == Commitment(id, s.group.Pow(s.g, p.nonces[id].hiding),
                                             s.group.Pow(s.g, p.nonces[id].binding)))
    && (forall id :: id in p.shares ==>
          p.shares[id] == SigShare(id, HonestResponse(s, sorted, p.nonces[id], p.keys[id], id)))
  }

  lemma HonestMatch<G(!new)>(s: FrostScheme.Setup<G>, sorted: seq<Commitment<G>>, signers: seq<int>, p: Parties<G>,
                             ks: seq<int>, ls: seq<int>)
    requires s.Valid() && HonestParties(s, sorted, p) && p.commitments.Keys == SignerSet(signers)
    requires KeyOrder(ks, p.commitments) && KeyOrder(ls, p.shares)
    ensures MatchingIds(s, InOrder(ks, p.commitments), InOrder(ls, p.shares))
  {
    forall id | id in p.commitments
      ensures s.group.elem(p.commitments[id].hiding) && s.group.elem(p.commitments[id].binding)
    {
      s.group.PowElem(s.g, p.nonces[id].hiding);
      s.group.PowElem(s.g, p.nonces[id].binding);
    }
    forall i | 0 <= i < |signers| ensures 1 <= signers[i] <= |s.h| {
      assert signers[i] in SignerSet(signers);
      assert signers[i] in p.commitments;
    }
    TaggedMatch(s, signers, Aggregation(p.commitments, p.shares), ks, ls);
  }

  /** The share of one signer satisfies its equation. */
  lemma HonestEquation<G(!new)>(s: FrostScheme.Setup<G>, sorted: seq<Commitment<G>>, p: Parties<G>, id: int)
    requires s.Valid() && HonestParties(s, sorted, p) && id in p.commitments
    ensures p.commitments[id].id == id && 1 <= id <= |s.h|
    ensures ShareEquation(s, sorted, p.commitments[id], p.shares[id].data)
  {
    HonestShareVerifies(s, sorted, p.commitments[id], p.nonces[id], p.keys[id]);
  }

  /** Where the response for commitment i of the sorted list comes from. */
  lemma ResponseOf<G(!new)>(p: Parties<G>, ks: seq<int>, ls: seq<int>, list: seq<Commitment<G>>, shares: seq<SigShare>,
                            i: nat)
    requires KeyOrder(ks, p.commitments) && KeyOrder(ls, p.shares) && p.commitments.Keys == p.shares.Keys
    requires list == InOrder(ks, p.commitments) && shares == InOrder(ls, p.shares)
             && Interpolation.Distinct(ShareIds(shares))
    requires forall id :: id in p.commitments ==> p.commitments[id].id == id && p.shares[id].id == id
    requires i < |SortById(list)|
    ensures var c := SortById(list)[i];
            && c.id in p.commitments && p.commitments[c.id] == c
            && c.id in Responses(shares) && Responses(shares)[c.id] == p.shares[c.id].data
  {
    var c := SortById(list)[i];
    SortElements(list, c);
    var k :| 0 <= k < |list| && list[k] == c;
    var id := ks[k];
    assert id in p.commitments && c == p.commitments[id] && c.id == id;
    assert id in p.shares.Keys;
    var j :| 0 <= j < |ls| && ls[j] == c.id;
    ResponsesListed(shares, j);
  }

  /** Every collected share satisfies its equation. */
  lemma HonestEquations<G(!new)>(s: FrostScheme.Setup<G>, p: Parties<G>, ks: seq<int>, ls: seq<int>,
                                 list: seq<Commitment<G>>, shares: seq<SigShare>)
    requires s.Valid() && HonestParties(s, SortById(list), p)
    requires KeyOrder(ks, p.commitments) && KeyOrder(ls, p.shares)
    requires list == InOrder(ks, p.commitments) && shares == InOrder(ls, p.shares)
    requires Interpolation.Distinct(ShareIds(shares)) && PartCovered(s, SortById(list), Responses(shares))
    ensures forall i :: 0 <= i < |SortById(list)| ==>
              ShareEquation(s, SortById(list), SortById(list)[i], Responses(shares)[SortById(list)[i].id])
  {
    forall i | 0 <= i < |SortById(list)|
      ensures ShareEquation(s, SortById(list), SortById(list)[i], Responses(shares)[SortById(list)[i].id])
    {
      ResponseOf(p, ks, ls, list, shares, i);
      HonestEquation(s, SortById(list), p, SortById(list)[i].id);
    }
  }

  /** The shares of honest signers aggregate to a signature that passes `verify`. */
  lemma HonestSharesVerify<G(!new)>(s: FrostScheme.Setup<G>, f: seq<int>, signers: seq<int>, p: Parties<G>,
                                    ks: seq<int>, ls: seq<int>, list: seq<Commitment<G>>, shares: seq<SigShare>)
    requires s.Valid() && KeysShared(s, f) && |f| == |list| == |shares| && p.commitments.Keys == SignerSet(signers)
    requires KeyOrder(ks, p.commitments) && list == InOrder(ks, p.commitments) && HonestParties(s, SortById(list), p)
    requires KeyOrder(ls, p.shares) && shares == InOrder(ls, p.shares)
    ensures Verify(s, Signature(GroupCommitment(s, SortById(list)), ShareSum(s.q, shares)))
  {
    HonestMatch(s, SortById(list), signers, p, ks, ls);
    MatchingShares(s, list, shares);
    HonestEquations(s, p, ks, ls, list, shares);
    VerifiedSharesAggregate(s, f, list, shares, Responses(shares));
  }

  lemma HonestRunShape<G(!new)>(cfg: FrostConfig<G>, p: Parties<G>, inbox: seq<FrostMessage<G>>,
                                a: Aggregation<Commitment<G>, SigShare>, ks: seq<int>, ls: seq<int>)
    requires HonestNode(cfg, p) && GoodConfig(cfg) && ExecuteSpec(cfg, inbox).result == Some(a)
    requires forall i :: 0 <= i < |inbox| ==> HonestMessage(p, inbox[i])
    requires KeyOrder(ks, p.commitments) && KeyOrder(ls, a.shares)
    ensures a == Aggregation(p.commitments, p.shares) && |ks| == |ls| == cfg.threshold
    ensures p.commitments.Keys == SignerSet(cfg.signers)
  {
    HonestRunAggregates(cfg, p, inbox, a);
    AggregatedCount(cfg, inbox, a, ks, ls);
  }

  /** With honest signers, the signature of every finished run passes `verify`, whatever is delivered when. */
  lemma HonestRunVerifies<G(!new)>(s: FrostScheme.Setup<G>, f: seq<int>, cfg: FrostConfig<G>, p: Parties<G>,
                                   inbox: seq<FrostMessage<G>>, a: Aggregation<Commitment<G>, SigShare>,
                                   ks: seq<int>, ls: seq<int>, list: seq<Commitment<G>>, shares: seq<SigShare>)
    requires s.Valid() && KeysShared(s, f) && |f| == cfg.threshold && GoodConfig(cfg)
    requires KeyOrder(ks, p.commitments) && list == InOrder(ks, p.commitments)
    requires HonestParties(s, SortById(list), p) && HonestNode(cfg, p)
    requires forall i :: 0 <= i < |inbox| ==> HonestMessage(p, inbox[i])
    requires ExecuteSpec(cfg, inbox).result == Some(a) && KeyOrder(ls, a.shares) && shares == InOrder(ls, a.shares)
    ensures a.commitments == p.commitments && |list| == |shares| == cfg.threshold
    ensures Verify(s, Signature(GroupCommitment(s, SortById(list)), ShareSum(s.q, shares[..cfg.threshold])))
  {
    HonestRunShape(cfg, p, inbox, a, ks, ls);
    assert shares[..cfg.threshold] == shares;
    HonestSharesVerify(s, f, cfg.signers, p, ks, ls, list, shares);
  }
}
