/** The FROST machine and the FROST scheme together: what the signature of a finished run is. */
module FrostEndToEnd {
  import opened Options
  import opened Interpolation
  import opened FrostScheme
  import opened FrostProtocol

  type FrostConfig<!G> = Config<Commitment<G>, SigShare, Nonce>
  type FrostState<G> = State<Commitment<G>, SigShare, Nonce>
  type FrostMessage<G> = Message<Commitment<G>, SigShare>

  /** A message whose commitment or share carries the id of its sender, with commitments made
      of group elements.  The protocol does not check this. */
  ghost predicate TaggedMessage<G(!new)>(s: FrostScheme.Setup<G>, m: FrostMessage<G>) {
    match m.data
    case CommitmentData(c) => c.id == m.id && s.group.elem(c.hiding) && s.group.elem(c.binding)
    case ShareData(share) => share.id == m.id
    case _ => true
  }

  ghost predicate TaggedConfig<G(!new)>(s: FrostScheme.Setup<G>, cfg: FrostConfig<G>) {
    && cfg.commit.0.id == cfg.self && s.group.elem(cfg.commit.0.hiding) && s.group.elem(cfg.commit.0.binding)
    && (forall n, m :: cfg.sign(n, m).Some? ==> cfg.sign(n, m).value.id == cfg.self)
  }

  ghost predicate TaggedMaps<G(!new)>(s: FrostScheme.Setup<G>, commitments: map<int, Commitment<G>>,
                                      shares: map<int, SigShare>) {
    && (forall id :: id in commitments ==>
          commitments[id].id == id && s.group.elem(commitments[id].hiding) && s.group.elem(commitments[id].binding))
    && (forall id :: id in shares ==> shares[id].id == id)
  }

  lemma UpdateKeepsTags<G(!new)>(s: FrostScheme.Setup<G>, cfg: FrostConfig<G>, st: FrostState<G>, m: FrostMessage<G>)
    requires TaggedMessage(s, m) && TaggedMaps(s, st.commitments, st.shares)
    requires UpdateSpec(cfg, st, m).Continue?
    ensures TaggedMaps(s, UpdateSpec(cfg, st, m).state.commitments, UpdateSpec(cfg, st, m).state.shares)
  {
  }

  lemma RoundKeepsTags<G(!new)>(s: FrostScheme.Setup<G>, cfg: FrostConfig<G>, st: FrostState<G>)
    requires TaggedConfig(s, cfg) && TaggedMaps(s, st.commitments, st.shares)
    requires DoRoundSpec(cfg, st).Continue?
    ensures TaggedMaps(s, DoRoundSpec(cfg, st).state.commitments, DoRoundSpec(cfg, st).state.shares)
  {
  }

  lemma StepKeepsTags<G(!new)>(s: FrostScheme.Setup<G>, cfg: FrostConfig<G>, st: FrostState<G>, m: FrostMessage<G>)
    requires TaggedConfig(s, cfg) && TaggedMessage(s, m) && TaggedMaps(s, st.commitments, st.shares)
    ensures StepSpec(cfg, st, m).Next? ==>
              TaggedMaps(s, StepSpec(cfg, st, m).state.commitments, StepSpec(cfg, st, m).state.shares)
    ensures StepSpec(cfg, st, m).Finished? ==>
              TaggedMaps(s, StepSpec(cfg, st, m).aggregation.commitments, StepSpec(cfg, st, m).aggregation.shares)
  {
    if UpdateSpec(cfg, st, m).Continue? {
      UpdateKeepsTags(s, cfg, st, m);
      var s1 := UpdateSpec(cfg, st, m).state;
      if DoRoundSpec(cfg, s1).Continue? {
        RoundKeepsTags(s, cfg, s1);
      }
    }
  }

  lemma {:induction false} RunKeepsTags<G(!new)>(s: FrostScheme.Setup<G>, cfg: FrostConfig<G>, st: FrostState<G>,
                                                 inbox: seq<FrostMessage<G>>)
    requires TaggedConfig(s, cfg) && TaggedMaps(s, st.commitments, st.shares)
    requires forall i :: 0 <= i < |inbox| ==> TaggedMessage(s, inbox[i])
    ensures var r := RunSpec(cfg, st, inbox);
            r.result.Some? ==> TaggedMaps(s, r.result.value.commitments, r.result.value.shares)
    decreases |inbox|
  {
    if inbox != [] {
      StepKeepsTags(s, cfg, st, inbox[0]);
      var step := StepSpec(cfg, st, inbox[0]);
      if step.Next? {
        RunKeepsTags(s, cfg, step.state, inbox[1..]);
      }
    }
  }

  // ----- what is aggregated

  /** `keys` holds the keys of the map, each once, in some order. */
  ghost predicate KeyOrder<V>(keys: seq<int>, m: map<int, V>) {
    Distinct(keys) && (forall i :: 0 <= i < |keys| ==> keys[i] in m) && forall k :: k in m ==> k in keys
  }

  /** The values of the map in that order. */
  function InOrder<V>(keys: seq<int>, m: map<int, V>): (values: seq<V>)
    requires forall i :: 0 <= i < |keys| ==> keys[i] in m
    ensures |values| == |keys| && forall i :: 0 <= i < |keys| ==> values[i] == m[keys[i]]
  {
    seq(|keys|, i requires 0 <= i < |keys| => m[keys[i]])
  }

  lemma KeyOrderCount<V>(keys: seq<int>, m: map<int, V>, signers: seq<int>)
    requires KeyOrder(keys, m) && Distinct(signers) && m.Keys == SignerSet(signers)
    ensures |keys| == |signers|
  {
    DistinctCardinality(keys);
    DistinctCardinality(signers);
    assert SignerSet(keys) == m.Keys by {
      forall x | x in SignerSet(keys) ensures x in m.Keys {
        MembersAreSigners(keys, x);
      }
      forall x | x in m.Keys ensures x in SignerSet(keys) {
        MembersAreSigners(keys, x);
      }
    }
  }

  /** The ids inside the collected commitments and shares: commitments of distinct parties with a key,
      made of group elements, and one share with each of their ids. */
  ghost predicate MatchingIds<G(!new)>(s: FrostScheme.Setup<G>, list: seq<Commitment<G>>, shares: seq<SigShare>) {
    && CommitmentsValid(s, list) && DistinctIds(list) && Distinct(ShareIds(shares))
    && SameElements(ShareIds(shares), CommitmentIds(list))
    && (forall i :: 0 <= i < |list| ==> 1 <= list[i].id <= |s.h|)
  }

  /** The responses by the id inside the share. */
  function Responses(shares: seq<SigShare>): map<int, int> {
    if shares == [] then map[]
      else Responses(shares[..|shares| - 1])[shares[|shares| - 1].id := shares[|shares| - 1].data]
  }

  lemma {:induction false} ResponsesListed(shares: seq<SigShare>, i: nat)
    requires Distinct(ShareIds(shares)) && i < |shares|
    ensures shares[i].id in Responses(shares) && Responses(shares)[shares[i].id] == shares[i].data
  {
    var n := |shares| - 1;
    if i < n {
      assert ShareIds(shares)[..n] == ShareIds(shares[..n]);
      assert ShareIds(shares)[i] != ShareIds(shares)[n];
      ResponsesListed(shares[..n], i);
    }
  }

  lemma MatchingShares<G(!new)>(s: FrostScheme.Setup<G>, list: seq<Commitment<G>>, shares: seq<SigShare>)
    requires MatchingIds(s, list, shares)
    ensures SharesMatch(SortById(list), shares, Responses(shares))
    ensures PartCovered(s, SortById(list), Responses(shares))
  {
    var sorted := SortById(list);
    forall i | 0 <= i < |shares|
      ensures shares[i].id in Responses(shares) && Responses(shares)[shares[i].id] == shares[i].data
    {
      ResponsesListed(shares, i);
    }
    forall id ensures id in ShareIds(shares) <==> id in CommitmentIds(sorted) {
      IdsOfSorted(list, id);
    }
    SortKeeps(s, list);
    forall i | 0 <= i < |sorted| ensures 1 <= sorted[i].id <= |s.h| && sorted[i].id in Responses(shares) {
      SortElements(list, sorted[i]);
      assert CommitmentIds(sorted)[i] == sorted[i].id;
      assert sorted[i].id in ShareIds(shares);
      var k :| 0 <= k < |shares| && ShareIds(shares)[k] == sorted[i].id;
      assert shares[k].id in Responses(shares);
    }
  }

  /** The signature of a finished run: assembled by `finalize` from the maps of the run, in whatever order
      their values are listed, it passes `verify` if and only if the deviations of the collected shares
      from their equations multiply to the unit.  The senders of the messages do not matter, only that
      the ids inside the collected commitments and shares match. */
  lemma FinishedRunSignature<G(!new)>(s: FrostScheme.Setup<G>, f: seq<int>, cfg: FrostConfig<G>,
                                      inbox: seq<FrostMessage<G>>, a: Aggregation<Commitment<G>, SigShare>,
                                      ks: seq<int>, ls: seq<int>, list: seq<Commitment<G>>, shares: seq<SigShare>)
    requires s.Valid() && KeysShared(s, f) && |f| == cfg.threshold && GoodConfig(cfg)
    requires ExecuteSpec(cfg, inbox).result == Some(a) && KeyOrder(ks, a.commitments) && KeyOrder(ls, a.shares)
    requires list == InOrder(ks, a.commitments) && shares == InOrder(ls, a.shares) && MatchingIds(s, list, shares)
    ensures |list| == |shares| == cfg.threshold && PartCovered(s, SortById(list), Responses(shares))
    ensures Verify(s, Signature(GroupCommitment(s, SortById(list)), ShareSum(s.q, shares[..cfg.threshold])))
       <==> Deviations(s, SortById(list), SortById(list), Responses(shares)) == s.group.unit
  {
    AggregatedCount(cfg, inbox, a, ks, ls);
    assert shares[..cfg.threshold] == shares;
    MatchingShares(s, list, shares);
    AggregateVerifiesIff(s, f, list, shares, Responses(shares));
  }

  lemma AggregatedCount<G(!new)>(cfg: FrostConfig<G>, inbox: seq<FrostMessage<G>>,
                                 a: Aggregation<Commitment<G>, SigShare>, ks: seq<int>, ls: seq<int>)
    requires GoodConfig(cfg) && ExecuteSpec(cfg, inbox).result == Some(a)
    requires KeyOrder(ks, a.commitments) && KeyOrder(ls, a.shares)
    ensures |ks| == |ls| == cfg.threshold
  {
    EveryRunIsSafe(cfg, inbox);
    KeyOrderCount(ks, a.commitments, cfg.signers);
    KeyOrderCount(ls, a.shares, cfg.signers);
  }

  /** The ids match in every run whose messages carry the id of their sender. */
  lemma TaggedRunMatches<G(!new)>(s: FrostScheme.Setup<G>, cfg: FrostConfig<G>, inbox: seq<FrostMessage<G>>,
                                  a: Aggregation<Commitment<G>, SigShare>, ks: seq<int>, ls: seq<int>)
    requires GoodConfig(cfg) && (forall i :: 0 <= i < |cfg.signers| ==> 1 <= cfg.signers[i] <= |s.h|)
    requires TaggedConfig(s, cfg) && forall i :: 0 <= i < |inbox| ==> TaggedMessage(s, inbox[i])
    requires ExecuteSpec(cfg, inbox).result == Some(a) && KeyOrder(ks, a.commitments) && KeyOrder(ls, a.shares)
    ensures MatchingIds(s, InOrder(ks, a.commitments), InOrder(ls, a.shares))
  {
    EveryRunIsSafe(cfg, inbox);
    RunKeepsTags(s, cfg, FirstState(cfg), inbox);
    TaggedMatch(s, cfg.signers, a, ks, ls);
  }

  lemma TaggedMatch<G(!new)>(s: FrostScheme.Setup<G>, signers: seq<int>, a: Aggregation<Commitment<G>, SigShare>,
                             ks: seq<int>, ls: seq<int>)
    requires forall i :: 0 <= i < |signers| ==> 1 <= signers[i] <= |s.h|
    requires a.commitments.Keys == SignerSet(signers) == a.shares.Keys && TaggedMaps(s, a.commitments, a.shares)
    requires KeyOrder(ks, a.commitments) && KeyOrder(ls, a.shares)
    ensures MatchingIds(s, InOrder(ks, a.commitments), InOrder(ls, a.shares))
  {
    var list, shares := InOrder(ks, a.commitments), InOrder(ls, a.shares);
    assert CommitmentIds(list) == ks && ShareIds(shares) == ls;
    forall i | 0 <= i < |list| ensures 1 <= list[i].id <= |s.h| {
      assert ks[i] in a.commitments.Keys;
      var k :| 0 <= k < |signers| && signers[k] == ks[i];
    }
  }
}
