/** What the share check inside `FrostProtocol::update` rejects.  The check looks only for an error of
    `verify_share`, and `FrostScheme.VerifyShare` returns an error exactly when no commitment of the list has
    the id of the share; a negative answer counts as acceptance. */
module FrostAcceptance {
  import opened Options
  import opened Groups
  import opened Interpolation
  import opened Residues
  import opened DlSharing
  import opened FrostScheme
  import opened FrostProtocol
  import opened FrostEndToEnd
  import opened FrostOutcome

  /** Some collected commitment has this id inside. */
  ghost predicate Listed<G>(commitments: map<int, Commitment<G>>, id: int) {
    exists k :: k in commitments && commitments[k].id == id
  }

  /** In whatever order the map is listed, that is the condition of `FrostScheme.VerifyShare`. */
  lemma ListedInOrder<G>(commitments: map<int, Commitment<G>>, ks: seq<int>, id: int)
    requires KeyOrder(ks, commitments)
    ensures Listed(commitments, id) <==> id in CommitmentIds(InOrder(ks, commitments))
  {
    var ids := CommitmentIds(InOrder(ks, commitments));
    if Listed(commitments, id) {
      var k :| k in commitments && commitments[k].id == id;
      var i :| 0 <= i < |ks| && ks[i] == k;
      assert ids[i] == id;
    }
    if id in ids {
      var i :| 0 <= i < |ids| && ids[i] == id;
      var k := ks[i];
      assert k in commitments && commitments[k].id == id;
    }
  }

  /** The configuration checks shares with `verify_share`. */
  ghost predicate ChecksShares<G(!new)>(cfg: FrostConfig<G>) {
    forall share, commitments :: cfg.verifies(share, commitments) <==> Listed(commitments, share.id)
  }

  // ----- what is rejected

  /** The messages that are rejected: an empty precomputation, a share that meets its sender's commitment, and
      a commitment that meets its sender's share, when no collected commitment has the id of the share. */
  ghost predicate Rejected<G(!new)>(cfg: FrostConfig<G>, st: FrostState<G>, m: FrostMessage<G>) {
    match m.data
    case CommitmentData(c) =>
      && m.id in cfg.signers && m.id !in st.commitments && m.id in st.shares
      && c.id != st.shares[m.id].id && !Listed(st.commitments, st.shares[m.id].id)
    case ShareData(share) =>
      m.id in cfg.signers && m.id !in st.shares && m.id in st.commitments && !Listed(st.commitments, share.id)
    case PrecomputationData(list) => list == []
    case DefaultData => false
  }

  /** Exactly those, whatever the share says otherwise. */
  lemma RejectedIff<G(!new)>(cfg: FrostConfig<G>, st: FrostState<G>, m: FrostMessage<G>)
    requires ChecksShares(cfg)
    ensures UpdateSpec(cfg, st, m) == Fail(InvalidShare) <==> Rejected(cfg, st, m)
  {
    if m.data.CommitmentData? && m.id !in st.commitments && m.id in st.shares {
      ListedExtended(st.commitments, m.id, m.data.commitment, st.shares[m.id].id);
    }
  }

  lemma ListedExtended<G>(commitments: map<int, Commitment<G>>, k: int, c: Commitment<G>, id: int)
    requires k !in commitments
    ensures Listed(commitments[k := c], id) <==> c.id == id || Listed(commitments, id)
  {
    var more := commitments[k := c];
    if c.id == id {
      assert k in more && more[k].id == id;
    } else if Listed(commitments, id) {
      var j :| j in commitments && commitments[j].id == id;
      assert j in more && more[j].id == id;
    }
  }

  /** No share is ever rejected for its value: any other response under the same id meets the same fate. */
  lemma ValueIsNotChecked<G(!new)>(cfg: FrostConfig<G>, st: FrostState<G>, sender: int, id: int, z: int, z': int)
    requires ChecksShares(cfg)
    ensures UpdateSpec(cfg, st, Message(sender, ShareData(SigShare(id, z)))) == Fail(InvalidShare)
       <==> UpdateSpec(cfg, st, Message(sender, ShareData(SigShare(id, z')))) == Fail(InvalidShare)
  {
    RejectedIff(cfg, st, Message(sender, ShareData(SigShare(id, z))));
    RejectedIff(cfg, st, Message(sender, ShareData(SigShare(id, z'))));
  }

  /** Among messages that carry the id of their sender, only the empty precomputation is rejected. */
  lemma TaggedRejectedIff<G(!new)>(s: FrostScheme.Setup<G>, cfg: FrostConfig<G>, st: FrostState<G>, m: FrostMessage<G>)
    requires ChecksShares(cfg) && TaggedMessage(s, m) && TaggedMaps(s, st.commitments, st.shares)
    ensures UpdateSpec(cfg, st, m) == Fail(InvalidShare) <==> m.data == PrecomputationData([])
  {
    RejectedIff(cfg, st, m);
    if m.data.ShareData? && m.id in st.commitments {
      assert st.commitments[m.id].id == m.id;
    }
  }

  /** So over every run of such messages without an empty precomputation, `InvalidShare` never occurs. */
  lemma {:induction false} NoShareIsEverRejected<G(!new)>(s: FrostScheme.Setup<G>, cfg: FrostConfig<G>,
                                                         st: FrostState<G>, inbox: seq<FrostMessage<G>>)
    requires ChecksShares(cfg) && TaggedConfig(s, cfg) && TaggedMaps(s, st.commitments, st.shares)
    requires GoodConfig(cfg) && FrostProtocol.Invariant(cfg, st)
    requires forall i :: 0 <= i < |inbox| ==> TaggedMessage(s, inbox[i]) && inbox[i].data != PrecomputationData([])
    ensures RunSpec(cfg, st, inbox).error != Some(InvalidShare)
    decreases |inbox|
  {
    if inbox != [] {
      var step := StepSpec(cfg, st, inbox[0]);
      TaggedRejectedIff(s, cfg, st, inbox[0]);
      StepIsGood(cfg, st, inbox[0]);
      StepKeepsTags(s, cfg, st, inbox[0]);
      StepErrors(cfg, st, inbox[0]);
      if step.Next? {
        NoShareIsEverRejected(s, cfg, step.state, inbox[1..]);
      }
    }
  }

  lemma StepErrors<G(!new)>(cfg: FrostConfig<G>, st: FrostState<G>, m: FrostMessage<G>)
    ensures StepSpec(cfg, st, m).Stopped? && StepSpec(cfg, st, m).error == InvalidShare ==>
              UpdateSpec(cfg, st, m) == Fail(InvalidShare)
  {
  }

  /** The first commitment and the first share of a sender carry its id. */
  lemma {:induction false} FirstTagged<G(!new)>(s: FrostScheme.Setup<G>, inbox: seq<FrostMessage<G>>, id: int)
    requires forall i :: 0 <= i < |inbox| ==> TaggedMessage(s, inbox[i])
    ensures CommitmentOf(inbox, id).Some? ==> CommitmentOf(inbox, id).value.id == id
    ensures ShareOf(inbox, id).Some? ==> ShareOf(inbox, id).value.id == id
  {
    if inbox != [] {
      FirstTagged(s, inbox[1..], id);
    }
  }

  /** Such runs have no faults, so `FrostOutcome.RunOutcome` says how each of them ends. */
  lemma TaggedFaultFree<G(!new)>(s: FrostScheme.Setup<G>, cfg: FrostConfig<G>, inbox: seq<FrostMessage<G>>)
    requires ChecksShares(cfg) && TaggedConfig(s, cfg)
    requires forall i :: 0 <= i < |inbox| ==> TaggedMessage(s, inbox[i])
    requires forall i :: 0 <= i < |inbox| ==> !inbox[i].data.DefaultData? && inbox[i].data != PrecomputationData([])
    ensures FaultFree(cfg, inbox)
  {
    forall i | 0 <= i < |inbox| ensures Fault(cfg, inbox[..i], inbox[i]).None? {
      NoFault(s, cfg, inbox[..i], inbox[i]);
    }
  }

  lemma NoFault<G(!new)>(s: FrostScheme.Setup<G>, cfg: FrostConfig<G>, a: seq<FrostMessage<G>>, m: FrostMessage<G>)
    requires ChecksShares(cfg) && TaggedConfig(s, cfg) && TaggedMessage(s, m)
    requires forall i :: 0 <= i < |a| ==> TaggedMessage(s, a[i])
    requires !m.data.DefaultData? && m.data != PrecomputationData([])
    ensures Fault(cfg, a, m).None?
  {
    var b := a + [m];
    FirstTagged(s, a, m.id);
    FirstTagged(s, b, m.id);
    FirstOfBoth(a, [m], m.id);
    OneMessage(m, m.id);
    if m.id in CommittedIn(cfg, a) {
      assert Commitments(cfg, a)[m.id].id == m.id;
    }
    if m.id in CommittedIn(cfg, b) {
      assert Commitments(cfg, b)[m.id].id == m.id;
    }
  }

  // ----- a run that finalizes with a bad share

  /** Two signers, seen from the first. */
  ghost predicate TwoSigners<G(!new)>(cfg: FrostConfig<G>, own: SigShare, c: Commitment<G>) {
    && cfg.self == 1 && cfg.signers == [1, 2] && cfg.threshold == 2 && ChecksShares(cfg)
    && cfg.sign(cfg.commit.1, map[1 := cfg.commit.0, 2 := c]) == Some(own)
    && cfg.aggregates(map[1 := cfg.commit.0, 2 := c])
  }

  /** The second signer sends its commitment and then any share under an id that some commitment has: the run
      finalizes with both. */
  lemma AnyShareFinalizes<G(!new)>(cfg: FrostConfig<G>, own: SigShare, c: Commitment<G>, share: SigShare)
    requires TwoSigners(cfg, own, c) && (share.id == c.id || share.id == cfg.commit.0.id)
    ensures ExecuteSpec(cfg, [Message(2, CommitmentData(c)), Message(2, ShareData(share))]).result
         == Some(Aggregation(map[1 := cfg.commit.0, 2 := c], map[1 := own, 2 := share]))
  {
    var m1, m2 := Message(2, CommitmentData(c)), Message(2, ShareData(share));
    var both := map[1 := cfg.commit.0, 2 := c];
    var s0: FrostState<G> := State(1, Some(cfg.commit.1), map[1 := cfg.commit.0], map[], {}, false);
    assert cfg.signers[0] == 1 && cfg.signers[1] == 2;
    assert FirstState(cfg) == s0;
    assert s0.commitments[2 := c] == both;
    var s1 := s0.(commitments := both);
    assert UpdateSpec(cfg, s0, m1) == Continue(s1);
    BothCounted(both);
    var s2 := s1.(round := 2, shares := map[1 := own]);
    assert s1.shares[1 := own] == s2.shares;
    assert DoRoundSpec(cfg, s1) == Continue(s2);
    assert !ReadyToFinalize(cfg, s1) && ReadyForNextRound(cfg, s1);
    assert StepSpec(cfg, s0, m1).Next? && StepSpec(cfg, s0, m1).state == s2;
    var s3 := s2.(shares := map[1 := own, 2 := share]);
    assert s2.shares[2 := share] == s3.shares;
    BothCounted(s3.shares);
    assert both[1] == cfg.commit.0 && both[2] == c;
    assert Listed(both, share.id);
    assert UpdateSpec(cfg, s2, m2) == Continue(s3);
    assert ReadyToFinalize(cfg, s3);
    assert StepSpec(cfg, s2, m2) == Finished(Aggregation(both, s3.shares));
    assert [m1, m2][1..] == [m2];
    assert RunSpec(cfg, s2, [m2]).result == Some(Aggregation(both, s3.shares));
  }

  lemma BothCounted<V>(m: map<int, V>)
    requires m.Keys == {1, 2}
    ensures |m| == 2
  {
    assert |m| == |m.Keys|;
  }

  /** If that share is the only one that fails its equation, the signature of the finished run fails `verify`. */
  lemma BadShareFinalizes<G(!new)>(s: FrostScheme.Setup<G>, f: seq<int>, cfg: FrostConfig<G>, own: SigShare,
                                   c: Commitment<G>, z: int, list: seq<Commitment<G>>)
    requires s.Valid() && KeysShared(s, f) && |f| == 2 && |s.h| >= 2
    requires TwoSigners(cfg, own, c) && cfg.commit.0.id == 1 && c.id == 2 && own.id == 1
    requires list == [cfg.commit.0, c] && CommitmentsValid(s, list)
    requires ShareEquation(s, list, cfg.commit.0, own.data) && !ShareEquation(s, list, c, z)
    ensures ExecuteSpec(cfg, [Message(2, CommitmentData(c)), Message(2, ShareData(SigShare(2, z)))]).result
         == Some(Aggregation(map[1 := cfg.commit.0, 2 := c], map[1 := own, 2 := SigShare(2, z)]))
    ensures !Verify(s, Signature(GroupCommitment(s, list), ShareSum(s.q, [own, SigShare(2, z)])))
  {
    AnyShareFinalizes(cfg, own, c, SigShare(2, z));
    PairSorted(cfg.commit.0, c);
    var shares, zs := [own, SigShare(2, z)], map[1 := own.data, 2 := z];
    assert ShareIds(shares) == [1, 2] && CommitmentIds(list) == [1, 2];
    OneBadShareIsCaught(s, f, list, shares, zs, 1);
  }

  lemma PairSorted<G>(a: Commitment<G>, b: Commitment<G>)
    requires a.id < b.id
    ensures SortById([a, b]) == [a, b]
  {
    assert [a, b][1..] == [b] && [b][1..] == [];
    assert SortById([b]) == InsertById(b, []) == [b];
  }

  // ----- the same with numbers

  /** The integers modulo 3 under addition. */
  function ModThree(): AbelianGroup<int> {
    AbelianGroup((a: int) => 0 <= a < 3, 0, (a: int, b: int) => (a + b) % 3, (a: int) => (-a) % 3)
  }

  lemma ModThreeLawful()
    ensures ModThree().Lawful()
  {
    var G := ModThree();
    forall a, b, c ensures G.Assoc(a, b, c) {
    }
    forall a, b ensures G.Closed(a, b) && G.Comm(a, b) {
    }
    forall a ensures G.Unit(a) && G.Inverse(a) {
    }
  }

  /** A key that shares the secret 0, with hash functions that are constantly 0. */
  function SmallSetup(): FrostScheme.Setup<int> {
    FrostScheme.Setup(ModThree(), 1, 3, 0, [0, 0], (list: seq<Commitment<int>>, id: int) => 0, (r: int) => 0)
  }

  lemma SmallSetupValid()
    ensures SmallSetup().Valid() && KeysShared(SmallSetup(), [0, 0])
  {
    var s, G, F := SmallSetup(), ModThree(), ModField(3);
    ModThreeLawful();
    ThreePrime();
    assert G.Pow(1, 1) == 1 && G.Pow(1, 2) == 2 && G.Pow(1, 3) == 0;
    forall x ensures Eval(F, [0, 0], x) == 0 {
      assert [0, 0][..1] == [0] && [0][..0] == [];
      assert Eval(F, [0], x) == 0;
    }
    assert s.group.Pow(s.g, 0) == 0;
    assert s.y == s.group.Pow(s.g, [0, 0][|[0, 0]| - 1]);
  }

  lemma ThreePrime()
    ensures Prime(3)
  {
    forall d | 1 < d < 3 ensures !Divides(d, 3) {
      forall k ensures !Multiple(3, d, k) {
        assert d == 2;
      }
    }
  }

  function ZeroCommitment(id: int): Commitment<int> {
    Commitment(id, 0, 0)
  }

  /** Node 1 of signers 1 and 2, with nonces and key share 0. */
  ghost function SmallConfig(): FrostConfig<int> {
    Config(1, [1, 2], 2, (ZeroCommitment(1), Nonce(0, 0)),
           (share: SigShare, m: map<int, Commitment<int>>) => Listed(m, share.id),
           (n: Nonce, m: map<int, Commitment<int>>) => Some(SigShare(1, 0)),
           (m: map<int, Commitment<int>>) => true)
  }

  lemma SmallEquations()
    ensures var s, list := SmallSetup(), [ZeroCommitment(1), ZeroCommitment(2)];
            ShareEquation(s, list, list[0], 0) && !ShareEquation(s, list, list[1], 1)
  {
    var s, list, G := SmallSetup(), [ZeroCommitment(1), ZeroCommitment(2)], ModThree();
    assert G.Pow(0, 0) == 0 && G.Pow(1, 0) == 0 && G.Pow(1, 1) == 1;
    forall c | c in list ensures ExpectedShare(s, list, c) == 0 {
      assert ShareCommitment(s, list, c) == 0;
      var lambda := Weight(ModField(s.q), CommitmentIds(list), c.id);
      assert (lambda * s.challenge(GroupCommitment(s, list))) % s.q == 0;
    }
    assert list[0] in list && list[1] in list;
  }

  /** A run with numbers: node 2 commits to 0 and answers 1 where only 0 satisfies the equation.  Node 1
      finalizes, and the signature fails `verify`. */
  lemma BadShareInput()
    ensures var run := ExecuteSpec(SmallConfig(), [Message(2, CommitmentData(ZeroCommitment(2))),
                                                   Message(2, ShareData(SigShare(2, 1)))]);
            run.result.Some? && run.result.value.shares == map[1 := SigShare(1, 0), 2 := SigShare(2, 1)]
    ensures var s, list := SmallSetup(), [ZeroCommitment(1), ZeroCommitment(2)];
            !Verify(s, Signature(GroupCommitment(s, list), ShareSum(s.q, [SigShare(1, 0), SigShare(2, 1)])))
  {
    SmallSetupValid();
    SmallEquations();
    BadShareFinalizes(SmallSetup(), [0, 0], SmallConfig(), SigShare(1, 0), ZeroCommitment(2), 1,
                      [ZeroCommitment(1), ZeroCommitment(2)]);
  }

  /** A sender need not use its own id: node 2 commits and answers under the id of node 1, and node 1
      finalizes with two commitments and two shares of one id. */
  lemma ForeignIdInput()
    ensures var run := ExecuteSpec(SmallConfig(), [Message(2, CommitmentData(ZeroCommitment(1))),
                                                   Message(2, ShareData(SigShare(1, 1)))]);
            && run.result.Some? && run.result.value.commitments == map[1 := ZeroCommitment(1), 2 := ZeroCommitment(1)]
            && run.result.value.shares == map[1 := SigShare(1, 0), 2 := SigShare(1, 1)]
            && !TaggedMaps(SmallSetup(), run.result.value.commitments, run.result.value.shares)
  {
    AnyShareFinalizes(SmallConfig(), SigShare(1, 0), ZeroCommitment(1), SigShare(1, 1));
  }
}
