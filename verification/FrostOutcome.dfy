/** How a FROST run ends, for every inbox: the outcome in terms of the first commitment and the first share of every
    signer in the inbox, whatever else is delivered and in whatever order. */
module FrostOutcome {
  import opened Options
  import opened FrostProtocol

  // ----- what an inbox contains

  /** The first commitment that a sender sends. */
  function CommitmentOf<C, S>(inbox: seq<Message<C, S>>, id: int): Option<C> {
    if inbox == [] then None
    else if inbox[0].id == id && inbox[0].data.CommitmentData? then Some(inbox[0].data.commitment)
    else CommitmentOf(inbox[1..], id)
  }

  /** The first share that a sender sends. */
  function ShareOf<C, S>(inbox: seq<Message<C, S>>, id: int): Option<S> {
    if inbox == [] then None
    else if inbox[0].id == id && inbox[0].data.ShareData? then Some(inbox[0].data.share)
    else ShareOf(inbox[1..], id)
  }

  lemma {:induction false} FirstOfBoth<C, S>(a: seq<Message<C, S>>, b: seq<Message<C, S>>, id: int)
    ensures CommitmentOf(a + b, id) == if CommitmentOf(a, id).Some? then CommitmentOf(a, id) else CommitmentOf(b, id)
    ensures ShareOf(a + b, id) == if ShareOf(a, id).Some? then ShareOf(a, id) else ShareOf(b, id)
  {
    if a == [] {
      assert a + b == b;
    } else {
      assert (a + b)[0] == a[0] && (a + b)[1..] == a[1..] + b;
      FirstOfBoth(a[1..], b, id);
    }
  }

  lemma OneMessage<C, S>(m: Message<C, S>, id: int)
    ensures CommitmentOf([m], id) == if m.id == id && m.data.CommitmentData? then Some(m.data.commitment) else None
    ensures ShareOf([m], id) == if m.id == id && m.data.ShareData? then Some(m.data.share) else None
  {
  }

  /** The signers whose commitment a node holds after the inbox: the own one from the start. */
  function CommittedIn<C, S, N>(cfg: Config<C, S, N>, inbox: seq<Message<C, S>>): set<int> {
    set id | id in SignerSet(cfg.signers) && (id == cfg.self || CommitmentOf(inbox, id).Some?)
  }

  ghost predicate AllCommitted<C, S, N>(cfg: Config<C, S, N>, inbox: seq<Message<C, S>>) {
    forall id :: id in SignerSet(cfg.signers) && id != cfg.self ==> CommitmentOf(inbox, id).Some?
  }

  function Commitments<C, S, N>(cfg: Config<C, S, N>, inbox: seq<Message<C, S>>): map<int, C> {
    map id | id in CommittedIn(cfg, inbox) :: if id == cfg.self then cfg.commit.0 else CommitmentOf(inbox, id).value
  }

  /** Message t brings the last commitment, or is the first message at all after which none is missing. */
  ghost predicate CompletedBy<C, S, N>(cfg: Config<C, S, N>, inbox: seq<Message<C, S>>, t: nat) {
    1 <= t <= |inbox| && AllCommitted(cfg, inbox[..t]) && (t == 1 || !AllCommitted(cfg, inbox[..t - 1]))
  }

  /** The node signs: when the commitments are complete, no share has come under its own id. */
  ghost predicate Signs<C, S, N>(cfg: Config<C, S, N>, inbox: seq<Message<C, S>>) {
    cfg.self in cfg.signers && exists t: nat :: CompletedBy(cfg, inbox, t) && ShareOf(inbox[..t], cfg.self).None?
  }

  /** The own share, if the node signs and signing succeeds. */
  ghost function OwnShare<C, S, N>(cfg: Config<C, S, N>, inbox: seq<Message<C, S>>): Option<S> {
    if Signs(cfg, inbox) then cfg.sign(cfg.commit.1, Commitments(cfg, inbox)) else None
  }

  /** The shares a node holds when its own one is `own`: that one, and the first share of every other signer. */
  function SharesWith<C, S, N>(cfg: Config<C, S, N>, inbox: seq<Message<C, S>>, own: Option<S>): map<int, S> {
    map id | id in SignerSet(cfg.signers) && (ShareOf(inbox, id).Some? || (id == cfg.self && own.Some?)) ::
      if id == cfg.self && own.Some? then own.value else ShareOf(inbox, id).value
  }

  /** Everything is there when the last message is taken in: a commitment of every signer, and a share of every
      signer, where the own share counts if an earlier message made the node sign. */
  ghost predicate Finishable<C, S, N>(cfg: Config<C, S, N>, inbox: seq<Message<C, S>>) {
    && inbox != [] && AllCommitted(cfg, inbox)
    && forall id :: id in SignerSet(cfg.signers) ==>
         ShareOf(inbox, id).Some? || (id == cfg.self && Signs(cfg, inbox[..|inbox| - 1]))
  }

  // ----- faults

  /** The error of a message that comes after the messages `a`: default messages and empty precomputations, and
      shares that fail their check when both the share and the commitment of a signer are there. */
  ghost function Fault<C, S, N>(cfg: Config<C, S, N>, a: seq<Message<C, S>>, m: Message<C, S>): Option<ProtocolError> {
    match m.data
    case CommitmentData(c) =>
      if m.id in SignerSet(cfg.signers) - CommittedIn(cfg, a) && ShareOf(a, m.id).Some?
         && !cfg.verifies(ShareOf(a, m.id).value, Commitments(cfg, a + [m])) then Some(InvalidShare) else None
    case ShareData(s) =>
      if m.id in CommittedIn(cfg, a) && ShareOf(a, m.id).None? && !(m.id == cfg.self && Signs(cfg, a))
         && !cfg.verifies(s, Commitments(cfg, a)) then Some(InvalidShare) else None
    case PrecomputationData(list) => if list == [] then Some(InvalidShare) else None
    case DefaultData => Some(InternalError)
  }

  ghost predicate FaultFree<C, S, N>(cfg: Config<C, S, N>, inbox: seq<Message<C, S>>) {
    forall i :: 0 <= i < |inbox| ==> Fault(cfg, inbox[..i], inbox[i]).None?
  }

  // ----- more messages

  lemma CompletedKeys<C, S, N>(cfg: Config<C, S, N>, inbox: seq<Message<C, S>>)
    ensures AllCommitted(cfg, inbox) <==> CommittedIn(cfg, inbox) == SignerSet(cfg.signers)
    ensures Commitments(cfg, inbox).Keys == CommittedIn(cfg, inbox)
  {
    if AllCommitted(cfg, inbox) {
      assert forall id :: id in SignerSet(cfg.signers) ==> id in CommittedIn(cfg, inbox);
    } else {
      var id :| id in SignerSet(cfg.signers) && id != cfg.self && CommitmentOf(inbox, id).None?;
      assert id !in CommittedIn(cfg, inbox);
    }
  }

  /** Once complete, the commitments do not change any more. */
  lemma CommitmentsStay<C, S, N>(cfg: Config<C, S, N>, a: seq<Message<C, S>>, b: seq<Message<C, S>>)
    requires AllCommitted(cfg, a)
    ensures AllCommitted(cfg, a + b) && Commitments(cfg, a + b) == Commitments(cfg, a)
  {
    forall id | id in SignerSet(cfg.signers) && id != cfg.self
      ensures CommitmentOf(a + b, id) == CommitmentOf(a, id) && CommitmentOf(a, id).Some?
    {
      FirstOfBoth(a, b, id);
    }
    CompletedKeys(cfg, a);
    CompletedKeys(cfg, a + b);
  }

  lemma PrefixOf<T>(a: seq<T>, b: seq<T>, t: nat)
    requires t <= |a|
    ensures (a + b)[..t] == a[..t] && a[..t] + a[t..] == a
  {
  }

  /** A complete inbox was completed at some message. */
  lemma {:induction false} Completion<C, S, N>(cfg: Config<C, S, N>, inbox: seq<Message<C, S>>) returns (t: nat)
    requires inbox != [] && AllCommitted(cfg, inbox)
    ensures CompletedBy(cfg, inbox, t)
  {
    var n := |inbox| - 1;
    assert inbox[..n + 1] == inbox;
    if n == 0 || !AllCommitted(cfg, inbox[..n]) {
      t := n + 1;
    } else {
      t := Completion(cfg, inbox[..n]);
      assert inbox[..n][..t] == inbox[..t] && inbox[..n][..t - 1] == inbox[..t - 1];
    }
  }

  lemma CompletedOnce<C, S, N>(cfg: Config<C, S, N>, inbox: seq<Message<C, S>>, t: nat, u: nat)
    requires CompletedBy(cfg, inbox, t) && u <= |inbox| && AllCommitted(cfg, inbox[..u]) && u >= 1
    ensures t <= u
  {
    if u < t {
      var p := inbox[..t - 1];
      assert p == p[..u] + p[u..] && p[..u] == inbox[..u];
      CommitmentsStay(cfg, inbox[..u], p[u..]);
    }
  }

  /** Whether the node signs is settled by the message that completes the commitments. */
  lemma SignsStay<C, S, N>(cfg: Config<C, S, N>, a: seq<Message<C, S>>, b: seq<Message<C, S>>)
    requires a != [] && AllCommitted(cfg, a)
    ensures Signs(cfg, a + b) <==> Signs(cfg, a)
  {
    var t := Completion(cfg, a);
    PrefixOf(a, b, t);
    PrefixOf(a, b, t - 1);
    assert CompletedBy(cfg, a + b, t);
    forall u: nat | CompletedBy(cfg, a + b, u) ensures u == t {
      CompletedOnce(cfg, a + b, u, t);
      CompletedOnce(cfg, a + b, t, u);
    }
    forall u: nat | CompletedBy(cfg, a, u) ensures u == t {
      CompletedOnce(cfg, a, u, t);
      CompletedOnce(cfg, a, t, u);
    }
  }

  /** A node that has signed holds all commitments. */
  lemma SignedIsComplete<C, S, N>(cfg: Config<C, S, N>, a: seq<Message<C, S>>)
    requires Signs(cfg, a)
    ensures a != [] && AllCommitted(cfg, a)
  {
    var t: nat :| CompletedBy(cfg, a, t) && ShareOf(a[..t], cfg.self).None?;
    assert a == a[..t] + a[t..];
    CommitmentsStay(cfg, a[..t], a[t..]);
  }

  /** One more message makes the node sign exactly if it completes the commitments. */
  lemma SignsNext<C, S, N>(cfg: Config<C, S, N>, a: seq<Message<C, S>>, m: Message<C, S>)
    requires AllCommitted(cfg, a + [m]) && (a == [] || !AllCommitted(cfg, a))
    ensures !Signs(cfg, a)
    ensures Signs(cfg, a + [m]) <==> cfg.self in cfg.signers && ShareOf(a + [m], cfg.self).None?
  {
    var b := a + [m];
    assert b[..|b|] == b && b[..|b| - 1] == a;
    assert CompletedBy(cfg, b, |b|);
    if Signs(cfg, a) {
      SignedIsComplete(cfg, a);
    }
    forall t: nat | CompletedBy(cfg, b, t) ensures t == |b| {
      if t < |b| {
        assert b[..t] == a[..t] && a == a[..t] + a[t..];
        CommitmentsStay(cfg, a[..t], a[t..]);
      }
    }
  }

  lemma NotYetSigned<C, S, N>(cfg: Config<C, S, N>, a: seq<Message<C, S>>)
    requires !AllCommitted(cfg, a) || a == []
    ensures !Signs(cfg, a)
  {
    if Signs(cfg, a) {
      SignedIsComplete(cfg, a);
    }
  }

  // ----- the state after an inbox

  /** The state of a run that has taken in the messages and goes on. */
  ghost predicate Reached<C, S, N>(cfg: Config<C, S, N>, seen: seq<Message<C, S>>, st: State<C, S, N>) {
    && Invariant(cfg, st)
    && st.commitments == Commitments(cfg, seen) && st.shares == SharesWith(cfg, seen, OwnShare(cfg, seen))
    && st.round == (if seen != [] && AllCommitted(cfg, seen) then 2 else 1)
    && (Signs(cfg, seen) ==> OwnShare(cfg, seen).Some?)
  }

  lemma FirstReached<C, S, N>(cfg: Config<C, S, N>)
    ensures Reached(cfg, [], FirstState(cfg)) && !Finishable(cfg, [])
  {
    FirstStateInvariant(cfg);
    NotYetSigned(cfg, []);
    MembersAreSigners(cfg.signers, cfg.self);
    var st, a: seq<Message<C, S>> := FirstState(cfg), [];
    assert CommittedIn(cfg, a) == if cfg.self in cfg.signers then {cfg.self} else {};
    assert st.commitments == Commitments(cfg, a);
    assert st.shares == SharesWith(cfg, a, None);
  }

  lemma ExtendCommitments<C, S, N>(cfg: Config<C, S, N>, a: seq<Message<C, S>>, m: Message<C, S>)
    ensures Commitments(cfg, a + [m])
         == if m.data.CommitmentData? && m.id in SignerSet(cfg.signers) && m.id !in CommittedIn(cfg, a)
            then Commitments(cfg, a)[m.id := m.data.commitment] else Commitments(cfg, a)
  {
    forall id ensures CommitmentOf(a + [m], id)
                   == if CommitmentOf(a, id).Some? then CommitmentOf(a, id) else CommitmentOf([m], id)
    {
      FirstOfBoth(a, [m], id);
    }
    forall id ensures CommitmentOf([m], id)
                   == if m.id == id && m.data.CommitmentData? then Some(m.data.commitment) else None
    {
      OneMessage(m, id);
    }
  }

  lemma ExtendShares<C, S, N>(cfg: Config<C, S, N>, a: seq<Message<C, S>>, m: Message<C, S>, own: Option<S>)
    ensures SharesWith(cfg, a + [m], own)
         == if m.data.ShareData? && m.id in SignerSet(cfg.signers) && m.id !in SharesWith(cfg, a, own)
            then SharesWith(cfg, a, own)[m.id := m.data.share] else SharesWith(cfg, a, own)
  {
    forall id ensures ShareOf(a + [m], id) == if ShareOf(a, id).Some? then ShareOf(a, id) else ShareOf([m], id) {
      FirstOfBoth(a, [m], id);
    }
    forall id ensures ShareOf([m], id) == if m.id == id && m.data.ShareData? then Some(m.data.share) else None {
      OneMessage(m, id);
    }
  }

  /** A message without fault is taken in; one with a fault stops the run with its error. */
  lemma Updated<C, S, N>(cfg: Config<C, S, N>, a: seq<Message<C, S>>, st: State<C, S, N>, m: Message<C, S>)
    requires Reached(cfg, a, st)
    ensures Fault(cfg, a, m).Some? ==> UpdateSpec(cfg, st, m) == Fail(Fault(cfg, a, m).value)
    ensures Fault(cfg, a, m).None? ==>
              && UpdateSpec(cfg, st, m).Continue?
              && var s1 := UpdateSpec(cfg, st, m).state;
                 && s1.commitments == Commitments(cfg, a + [m]) && s1.round == st.round
                 && s1.shares == SharesWith(cfg, a + [m], OwnShare(cfg, a))
  {
    ExtendCommitments(cfg, a, m);
    ExtendShares(cfg, a, m, OwnShare(cfg, a));
    CompletedKeys(cfg, a);
    MembersAreSigners(cfg.signers, m.id);
    MembersAreSigners(cfg.signers, cfg.self);
    if m.id == cfg.self && m.id in cfg.signers {
      assert m.id in CommittedIn(cfg, a);
    }
  }

  // ----- one message

  /** With the message everything is there exactly if the readiness test says so. */
  lemma ReadyIff<C, S, N>(cfg: Config<C, S, N>, a: seq<Message<C, S>>, m: Message<C, S>, s1: State<C, S, N>)
    requires GoodConfig(cfg) && Invariant(cfg, s1) && s1.commitments == Commitments(cfg, a + [m])
    requires s1.shares == SharesWith(cfg, a + [m], OwnShare(cfg, a)) && (Signs(cfg, a) ==> OwnShare(cfg, a).Some?)
    ensures ReadyToFinalize(cfg, s1) <==> Finishable(cfg, a + [m])
    ensures CommitmentsComplete(cfg, s1) <==> AllCommitted(cfg, a + [m])
  {
    ReadinessMeaning(cfg, s1);
    CompletedKeys(cfg, a + [m]);
    assert (a + [m])[..|a|] == a;
    if Finishable(cfg, a + [m]) {
      assert forall id :: id in SignerSet(cfg.signers) ==> id in s1.shares.Keys;
    }
    if s1.shares.Keys == SignerSet(cfg.signers) {
      forall id | id in SignerSet(cfg.signers)
        ensures ShareOf(a + [m], id).Some? || (id == cfg.self && Signs(cfg, a))
      {
        assert id in s1.shares.Keys;
      }
    }
  }

  /** The state, aggregation or error after one more message without fault. */
  lemma Stepped<C, S, N>(cfg: Config<C, S, N>, a: seq<Message<C, S>>, st: State<C, S, N>, m: Message<C, S>)
    requires GoodConfig(cfg) && Reached(cfg, a, st) && Fault(cfg, a, m).None?
    ensures var b := a + [m];
            if Finishable(cfg, b) then
              StepSpec(cfg, st, m) ==
                if cfg.aggregates(Commitments(cfg, b))
                then Finished(Aggregation(Commitments(cfg, b), SharesWith(cfg, b, OwnShare(cfg, a))))
                else Stopped(SchemeError, [])
            else if Signs(cfg, b) && OwnShare(cfg, b).None? then
              StepSpec(cfg, st, m).Stopped? && StepSpec(cfg, st, m).error == SchemeError
            else
              StepSpec(cfg, st, m).Next? && Reached(cfg, b, StepSpec(cfg, st, m).state)
    ensures StepSpec(cfg, st, m).Finished? || StepSpec(cfg, st, m).signings == NewSignings(cfg, a, a + [m])
  {
    var b := a + [m];
    Updated(cfg, a, st, m);
    UpdateKeeps(cfg, st, m);
    var s1 := UpdateSpec(cfg, st, m).state;
    ReadyIff(cfg, a, m, s1);
    if Finishable(cfg, b) {
      FinishedOwn(cfg, a, m);
    } else {
      NotFinishedYet(cfg, a, st, m, s1);
    }
  }

  /** The signing that the messages of b bring about after those of a. */
  ghost function NewSignings<C, S, N>(cfg: Config<C, S, N>, a: seq<Message<C, S>>, b: seq<Message<C, S>>):
    seq<Signing<C, N>>
  {
    if Signs(cfg, b) && !Signs(cfg, a) then [Signing(Some(cfg.commit.1), Commitments(cfg, b))] else []
  }

  lemma NotFinishedYet<C, S, N>(cfg: Config<C, S, N>, a: seq<Message<C, S>>, st: State<C, S, N>, m: Message<C, S>,
                                s1: State<C, S, N>)
    requires GoodConfig(cfg) && Reached(cfg, a, st) && Invariant(cfg, s1) && s1.round == st.round
    requires s1.commitments == Commitments(cfg, a + [m]) && !ReadyToFinalize(cfg, s1)
    requires s1.shares == SharesWith(cfg, a + [m], OwnShare(cfg, a))
    ensures var b := a + [m];
            if Signs(cfg, b) && OwnShare(cfg, b).None? then
              AfterUpdate(cfg, s1).Stopped? && AfterUpdate(cfg, s1).error == SchemeError
            else
              AfterUpdate(cfg, s1).Next? && Reached(cfg, b, AfterUpdate(cfg, s1).state)
    ensures AfterUpdate(cfg, s1).signings == NewSignings(cfg, a, a + [m])
  {
    var b := a + [m];
    ReadyIff(cfg, a, m, s1);
    ReadinessMeaning(cfg, s1);
    if a != [] && AllCommitted(cfg, a) {
      CommitmentsStay(cfg, a, [m]);
      SignsStay(cfg, a, [m]);
    } else if AllCommitted(cfg, b) {
      SigningRound(cfg, a, m, s1);
    } else {
      NotYetSigned(cfg, a);
      NotYetSigned(cfg, b);
    }
  }

  /** The message that completes the commitments starts the second round. */
  lemma SigningRound<C, S, N>(cfg: Config<C, S, N>, a: seq<Message<C, S>>, m: Message<C, S>, s1: State<C, S, N>)
    requires GoodConfig(cfg) && Invariant(cfg, s1) && s1.round == 1 && !ReadyToFinalize(cfg, s1)
    requires AllCommitted(cfg, a + [m]) && (a == [] || !AllCommitted(cfg, a))
    requires ReadyForNextRound(cfg, s1) && s1.commitments == Commitments(cfg, a + [m])
    requires s1.shares == SharesWith(cfg, a + [m], OwnShare(cfg, a))
    ensures var b := a + [m];
            if Signs(cfg, b) && OwnShare(cfg, b).None? then
              AfterUpdate(cfg, s1).Stopped? && AfterUpdate(cfg, s1).error == SchemeError
            else
              AfterUpdate(cfg, s1).Next? && Reached(cfg, b, AfterUpdate(cfg, s1).state)
    ensures AfterUpdate(cfg, s1).signings == NewSignings(cfg, a, a + [m])
  {
    var b := a + [m];
    SignsNext(cfg, a, m);
    RoundKeeps(cfg, s1);
    MembersAreSigners(cfg.signers, cfg.self);
    OwnAdded(cfg, b, OwnShare(cfg, b));
    assert SignsNow(cfg, s1) <==> Signs(cfg, b);
  }

  lemma OwnAdded<C, S, N>(cfg: Config<C, S, N>, b: seq<Message<C, S>>, own: Option<S>)
    ensures cfg.self in SignerSet(cfg.signers) ==>
              (cfg.self in SharesWith(cfg, b, None) <==> ShareOf(b, cfg.self).Some?)
    ensures cfg.self in SignerSet(cfg.signers) && own.Some? ==>
              SharesWith(cfg, b, own) == SharesWith(cfg, b, None)[cfg.self := own.value]
  {
  }

  // ----- whole runs

  /** How a run without faults ends. */
  ghost function Ending<C, S, N>(cfg: Config<C, S, N>, inbox: seq<Message<C, S>>):
    (Option<ProtocolError>, Option<Aggregation<C, S>>)
  {
    if Signs(cfg, inbox) && OwnShare(cfg, inbox).None? then (Some(SchemeError), None)
    else if !Finishable(cfg, inbox) then (Some(NotFinished), None)
    else if !cfg.aggregates(Commitments(cfg, inbox)) then (Some(SchemeError), None)
    else (None, Some(Aggregation(Commitments(cfg, inbox), SharesWith(cfg, inbox, OwnShare(cfg, inbox)))))
  }

  /** What ends a run is not changed by what comes later. */
  lemma EndingStays<C, S, N>(cfg: Config<C, S, N>, a: seq<Message<C, S>>, b: seq<Message<C, S>>)
    requires Finishable(cfg, a) || (Signs(cfg, a) && OwnShare(cfg, a).None?)
    ensures Ending(cfg, a + b) == Ending(cfg, a)
  {
    if Signs(cfg, a) {
      SignedIsComplete(cfg, a);
    }
    CommitmentsStay(cfg, a, b);
    SignsStay(cfg, a, b);
    if Signs(cfg, a) ==> OwnShare(cfg, a).Some? {
      FinishableStays(cfg, a, b);
      SharesStay(cfg, a, b);
    }
  }

  lemma SignedEarlier<C, S, N>(cfg: Config<C, S, N>, a: seq<Message<C, S>>, b: seq<Message<C, S>>)
    requires Signs(cfg, a)
    ensures Signs(cfg, a + b)
  {
    SignedIsComplete(cfg, a);
    SignsStay(cfg, a, b);
  }

  lemma FinishableStays<C, S, N>(cfg: Config<C, S, N>, a: seq<Message<C, S>>, b: seq<Message<C, S>>)
    requires Finishable(cfg, a)
    ensures Finishable(cfg, a + b)
  {
    var c, n := a + b, |a| - 1;
    CommitmentsStay(cfg, a, b);
    forall id | id in SignerSet(cfg.signers)
      ensures ShareOf(c, id).Some? || (id == cfg.self && Signs(cfg, c[..|c| - 1]))
    {
      FirstOfBoth(a, b, id);
      if ShareOf(a, id).None? {
        assert c[..|c| - 1] == a[..n] + c[n..|c| - 1];
        SignedEarlier(cfg, a[..n], c[n..|c| - 1]);
      }
    }
  }

  lemma SharesStay<C, S, N>(cfg: Config<C, S, N>, a: seq<Message<C, S>>, b: seq<Message<C, S>>)
    requires Finishable(cfg, a) && OwnShare(cfg, a + b) == OwnShare(cfg, a)
    requires Signs(cfg, a) ==> OwnShare(cfg, a).Some?
    ensures SharesWith(cfg, a + b, OwnShare(cfg, a)) == SharesWith(cfg, a, OwnShare(cfg, a))
  {
    var n := |a| - 1;
    forall id | id in SignerSet(cfg.signers)
      ensures ShareOf(a, id).Some? || (id == cfg.self && OwnShare(cfg, a).Some?)
      ensures ShareOf(a, id).Some? ==> ShareOf(a + b, id) == ShareOf(a, id)
    {
      FirstOfBoth(a, b, id);
      if ShareOf(a, id).None? {
        assert a == a[..n] + a[n..];
        SignedEarlier(cfg, a[..n], a[n..]);
      }
    }
  }

  lemma FinishedOwn<C, S, N>(cfg: Config<C, S, N>, a: seq<Message<C, S>>, m: Message<C, S>)
    requires Finishable(cfg, a + [m]) && (Signs(cfg, a) ==> OwnShare(cfg, a).Some?)
    ensures OwnShare(cfg, a + [m]) == OwnShare(cfg, a) && (Signs(cfg, a + [m]) <==> Signs(cfg, a))
    ensures Signs(cfg, a + [m]) ==> OwnShare(cfg, a + [m]).Some?
  {
    var b := a + [m];
    assert b[..|b| - 1] == a;
    if a != [] && AllCommitted(cfg, a) {
      CommitmentsStay(cfg, a, [m]);
      SignsStay(cfg, a, [m]);
    } else {
      SignsNext(cfg, a, m);
      MembersAreSigners(cfg.signers, cfg.self);
    }
  }

  lemma NextWithoutFault<C, S, N>(cfg: Config<C, S, N>, a: seq<Message<C, S>>, rest: seq<Message<C, S>>)
    requires rest != [] && FaultFree(cfg, a + rest)
    ensures Fault(cfg, a, rest[0]).None? && a + rest == (a + [rest[0]]) + rest[1..]
  {
    var all := a + rest;
    assert all[|a|] == rest[0] && all[..|a|] == a;
  }

  /** A node signs at most once. */
  lemma SigningsJoin<C, S, N>(cfg: Config<C, S, N>, a: seq<Message<C, S>>, m: Message<C, S>, rest: seq<Message<C, S>>)
    ensures NewSignings(cfg, a, a + [m] + rest)
         == NewSignings(cfg, a, a + [m]) + NewSignings(cfg, a + [m], a + [m] + rest)
    ensures AllCommitted(cfg, a + [m]) ==> NewSignings(cfg, a, a + [m] + rest) == NewSignings(cfg, a, a + [m])
  {
    var b := a + [m];
    if AllCommitted(cfg, b) {
      SignsStay(cfg, b, rest);
      CommitmentsStay(cfg, b, rest);
    } else {
      NotYetSigned(cfg, b);
    }
    if Signs(cfg, a) {
      SignedEarlier(cfg, a, [m]);
      SignedIsComplete(cfg, b);
    }
  }

  lemma {:induction false} RestOfRun<C, S, N>(cfg: Config<C, S, N>, a: seq<Message<C, S>>, st: State<C, S, N>,
                                             rest: seq<Message<C, S>>)
    requires GoodConfig(cfg) && Reached(cfg, a, st) && !Finishable(cfg, a) && FaultFree(cfg, a + rest)
    ensures (RunSpec(cfg, st, rest).error, RunSpec(cfg, st, rest).result) == Ending(cfg, a + rest)
    ensures RunSpec(cfg, st, rest).signings == NewSignings(cfg, a, a + rest)
    ensures RunSpec(cfg, st, rest).error == Some(NotFinished) ==> Reached(cfg, a + rest, RunSpec(cfg, st, rest).last)
    decreases |rest|
  {
    if rest == [] {
      assert a + rest == a;
    } else {
      var m, b := rest[0], a + [rest[0]];
      NextWithoutFault(cfg, a, rest);
      Stepped(cfg, a, st, m);
      SigningsJoin(cfg, a, m, rest[1..]);
      if Finishable(cfg, b) {
        FinishedOwn(cfg, a, m);
        EndingStays(cfg, b, rest[1..]);
      } else if Signs(cfg, b) && OwnShare(cfg, b).None? {
        EndingStays(cfg, b, rest[1..]);
      } else {
        RestOfRun(cfg, b, StepSpec(cfg, st, m).state, rest[1..]);
      }
    }
  }

  /** The outcome of every run without faults, whatever is delivered and in whatever order: error, aggregation, the
      one signing and the state of a run that goes on, in terms of the first commitment and the first share of every
      signer. */
  lemma RunOutcome<C, S, N>(cfg: Config<C, S, N>, inbox: seq<Message<C, S>>)
    requires GoodConfig(cfg) && FaultFree(cfg, inbox)
    ensures (ExecuteSpec(cfg, inbox).error, ExecuteSpec(cfg, inbox).result) == Ending(cfg, inbox)
    ensures ExecuteSpec(cfg, inbox).signings
         == if Signs(cfg, inbox) then [Signing(Some(cfg.commit.1), Commitments(cfg, inbox))] else []
    ensures ExecuteSpec(cfg, inbox).error == Some(NotFinished) ==> Reached(cfg, inbox, ExecuteSpec(cfg, inbox).last)
  {
    FirstReached(cfg);
    NotYetSigned(cfg, []);
    assert [] + inbox == inbox;
    RestOfRun(cfg, [], FirstState(cfg), inbox);
  }

  /** In particular, exactly when a run finishes. */
  lemma FinishesIff<C, S, N>(cfg: Config<C, S, N>, inbox: seq<Message<C, S>>)
    requires GoodConfig(cfg) && FaultFree(cfg, inbox)
    ensures ExecuteSpec(cfg, inbox).result.Some?
       <==> && Finishable(cfg, inbox) && cfg.aggregates(Commitments(cfg, inbox))
            && (Signs(cfg, inbox) ==> cfg.sign(cfg.commit.1, Commitments(cfg, inbox)).Some?)
  {
    RunOutcome(cfg, inbox);
  }

  /** A run that has not ended goes on from its last state. */
  lemma {:induction false} RunSplits<C, S, N>(cfg: Config<C, S, N>, st: State<C, S, N>, a: seq<Message<C, S>>,
                                             b: seq<Message<C, S>>)
    requires RunSpec(cfg, st, a).error == Some(NotFinished)
    ensures RunSpec(cfg, st, a + b).error == RunSpec(cfg, RunSpec(cfg, st, a).last, b).error
    ensures RunSpec(cfg, st, a + b).result == RunSpec(cfg, RunSpec(cfg, st, a).last, b).result
    decreases |a|
  {
    if a == [] {
      assert a + b == b;
    } else {
      assert (a + b)[0] == a[0] && (a + b)[1..] == a[1..] + b;
      var step := StepSpec(cfg, st, a[0]);
      StepErrors(cfg, st, a[0]);
      RunSplits(cfg, step.state, a[1..], b);
    }
  }

  lemma StepErrors<C, S, N>(cfg: Config<C, S, N>, st: State<C, S, N>, m: Message<C, S>)
    ensures StepSpec(cfg, st, m).Stopped? ==> StepSpec(cfg, st, m).error != NotFinished
  {
  }

  /** A run that has not ended stops at the first fault, with its error. */
  lemma FaultStops<C, S, N>(cfg: Config<C, S, N>, a: seq<Message<C, S>>, m: Message<C, S>, b: seq<Message<C, S>>)
    requires GoodConfig(cfg) && FaultFree(cfg, a) && Fault(cfg, a, m).Some?
    requires Ending(cfg, a) == (Some(NotFinished), None)
    ensures ExecuteSpec(cfg, a + ([m] + b)).error == Fault(cfg, a, m)
    ensures ExecuteSpec(cfg, a + ([m] + b)).result.None?
  {
    RunOutcome(cfg, a);
    var last := ExecuteSpec(cfg, a).last;
    Updated(cfg, a, last, m);
    RunSplits(cfg, FirstState(cfg), a, [m] + b);
    StoppedAtOnce(cfg, last, m, b);
  }

  lemma StoppedAtOnce<C, S, N>(cfg: Config<C, S, N>, st: State<C, S, N>, m: Message<C, S>, b: seq<Message<C, S>>)
    requires UpdateSpec(cfg, st, m).Fail?
    ensures RunSpec(cfg, st, [m] + b).error == Some(UpdateSpec(cfg, st, m).error)
    ensures RunSpec(cfg, st, [m] + b).result.None?
  {
    assert ([m] + b)[0] == m;
  }

  // ----- messages that do not matter

  /** A message that is ignored after the messages `a`: from a stranger, or a commitment or share that the node
      already holds. */
  ghost predicate Ignored<C, S, N>(cfg: Config<C, S, N>, a: seq<Message<C, S>>, m: Message<C, S>) {
    match m.data
    case CommitmentData(_) => m.id !in SignerSet(cfg.signers) || m.id in CommittedIn(cfg, a)
    case ShareData(_) =>
      m.id !in SignerSet(cfg.signers) || ShareOf(a, m.id).Some? || (m.id == cfg.self && Signs(cfg, a))
    case PrecomputationData(list) => list != []
    case DefaultData => false
  }

  /** It leaves the state as it is. */
  lemma IgnoredKeepsState<C, S, N>(cfg: Config<C, S, N>, a: seq<Message<C, S>>, st: State<C, S, N>, m: Message<C, S>)
    requires Reached(cfg, a, st) && Ignored(cfg, a, m)
    ensures UpdateSpec(cfg, st, m) == Continue(st)
  {
    CompletedKeys(cfg, a);
    MembersAreSigners(cfg.signers, m.id);
  }

  /** The first commitments and shares of an inbox do not see it, except for a second own share. */
  lemma InsertedOf<C, S,
      N>(cfg: Config<C, S, N>, a: seq<Message<C, S>>, m: Message<C, S>, b: seq<Message<C, S>>, id: int)
    requires Ignored(cfg, a, m) && id in SignerSet(cfg.signers)
    ensures id != cfg.self ==> CommitmentOf(a + [m] + b, id) == CommitmentOf(a + b, id)
    ensures ShareOf(a + [m] + b, id) == ShareOf(a + b, id) || (id == cfg.self && Signs(cfg, a))
  {
    FirstOfBoth(a + [m], b, id);
    FirstOfBoth(a, [m], id);
    FirstOfBoth(a, b, id);
    OneMessage(m, id);
  }

  lemma InsertedCommitments<C, S, N>(cfg: Config<C, S, N>, a: seq<Message<C, S>>, m: Message<C, S>,
                                     b: seq<Message<C, S>>)
    requires Ignored(cfg, a, m)
    ensures AllCommitted(cfg, a + [m] + b) <==> AllCommitted(cfg, a + b)
    ensures CommittedIn(cfg, a + [m] + b) == CommittedIn(cfg, a + b)
    ensures Commitments(cfg, a + [m] + b) == Commitments(cfg, a + b)
  {
    forall id | id in SignerSet(cfg.signers) && id != cfg.self
      ensures CommitmentOf(a + [m] + b, id) == CommitmentOf(a + b, id)
    {
      InsertedOf(cfg, a, m, b, id);
    }
  }

  /** Whether the node signs does not change either, unless the message comes first. */
  lemma InsertedSigns<C, S, N>(cfg: Config<C, S, N>, a: seq<Message<C, S>>, m: Message<C, S>, b: seq<Message<C, S>>)
    requires a != [] && Ignored(cfg, a, m)
    ensures Signs(cfg, a + [m] + b) <==> Signs(cfg, a + b)
  {
    assert a + [m] + b == a + ([m] + b);
    if AllCommitted(cfg, a) {
      SignsStay(cfg, a, [m] + b);
      SignsStay(cfg, a, b);
    } else {
      if Signs(cfg, a + b) {
        SignsLater(cfg, a, m, b);
      }
      if Signs(cfg, a + [m] + b) {
        SignsWithout(cfg, a, m, b);
      }
    }
  }

  lemma SignsLater<C, S, N>(cfg: Config<C, S, N>, a: seq<Message<C, S>>, m: Message<C, S>, b: seq<Message<C, S>>)
    requires a != [] && Ignored(cfg, a, m) && !AllCommitted(cfg, a) && Signs(cfg, a + b)
    ensures Signs(cfg, a + [m] + b)
  {
    NotYetSigned(cfg, a);
    var t: nat :| CompletedBy(cfg, a + b, t) && ShareOf((a + b)[..t], cfg.self).None?;
    NotInside(cfg, a, b, t);
    CompletionMoves(cfg, a, m, b, t - |a|);
    assert CompletedBy(cfg, a + [m] + b, t + 1);
  }

  lemma SignsWithout<C, S, N>(cfg: Config<C, S, N>, a: seq<Message<C, S>>, m: Message<C, S>, b: seq<Message<C, S>>)
    requires a != [] && Ignored(cfg, a, m) && !AllCommitted(cfg, a) && Signs(cfg, a + [m] + b)
    ensures Signs(cfg, a + b)
  {
    NotYetSigned(cfg, a);
    var t: nat :| CompletedBy(cfg, a + [m] + b, t) && ShareOf((a + [m] + b)[..t], cfg.self).None?;
    assert a + [m] + b == a + ([m] + b);
    NotInside(cfg, a, [m] + b, t);
    NotAtInserted(cfg, a, m, b, t);
    CompletionMoves(cfg, a, m, b, t - |a| - 1);
    assert CompletedBy(cfg, a + b, t - 1);
  }

  lemma NotInside<C, S, N>(cfg: Config<C, S, N>, a: seq<Message<C, S>>, b: seq<Message<C, S>>, t: nat)
    requires !AllCommitted(cfg, a) && CompletedBy(cfg, a + b, t)
    ensures t > |a|
  {
    if t <= |a| {
      PrefixOf(a, b, t);
      CommitmentsStay(cfg, a[..t], a[t..]);
    }
  }

  lemma NotAtInserted<C, S, N>(cfg: Config<C, S, N>, a: seq<Message<C, S>>, m: Message<C, S>, b: seq<Message<C, S>>,
                              t: nat)
    requires !AllCommitted(cfg, a) && Ignored(cfg, a, m) && CompletedBy(cfg, a + [m] + b, t) && t > |a|
    ensures t > |a| + 1
  {
    if t == |a| + 1 {
      assert (a + [m] + b)[..t] == a + [m] + [] && a + [] == a;
      InsertedCommitments(cfg, a, m, []);
    }
  }

  /** The completing message after the insertion is the one before it, one place later. */
  lemma CompletionMoves<C, S, N>(cfg: Config<C, S, N>, a: seq<Message<C, S>>, m: Message<C, S>, b: seq<Message<C, S>>,
                                k: nat)
    requires a != [] && Ignored(cfg, a, m) && !Signs(cfg, a) && 1 <= k <= |b|
    ensures CompletedBy(cfg, a + [m] + b, |a| + 1 + k) <==> CompletedBy(cfg, a + b, |a| + k)
    ensures cfg.self in cfg.signers ==>
              ShareOf((a + [m] + b)[..|a| + 1 + k], cfg.self) == ShareOf((a + b)[..|a| + k], cfg.self)
  {
    var long, short := a + [m] + b, a + b;
    assert long[..|a| + 1 + k] == a + [m] + b[..k] && short[..|a| + k] == a + b[..k];
    assert long[..|a| + k] == a + [m] + b[..k - 1] && short[..|a| + k - 1] == a + b[..k - 1];
    InsertedCommitments(cfg, a, m, b[..k]);
    InsertedCommitments(cfg, a, m, b[..k - 1]);
    MembersAreSigners(cfg.signers, cfg.self);
    if cfg.self in cfg.signers {
      InsertedOf(cfg, a, m, b[..k], cfg.self);
    }
  }

  lemma InsertedEnding<C, S, N>(cfg: Config<C, S, N>, a: seq<Message<C, S>>, m: Message<C, S>, b: seq<Message<C, S>>)
    requires a != [] && b != [] && Ignored(cfg, a, m)
    ensures Ending(cfg, a + [m] + b) == Ending(cfg, a + b)
  {
    var long, short, front := a + [m] + b, a + b, b[..|b| - 1];
    InsertedCommitments(cfg, a, m, b);
    InsertedSigns(cfg, a, m, b);
    InsertedSigns(cfg, a, m, front);
    assert long[..|long| - 1] == a + [m] + front && short[..|short| - 1] == a + front;
    if Signs(cfg, a) {
      SignedEarlier(cfg, a, front);
      SignedEarlier(cfg, a, b);
    }
    forall id | id in SignerSet(cfg.signers)
      ensures ShareOf(long, id) == ShareOf(short, id) || (id == cfg.self && Signs(cfg, a))
    {
      InsertedOf(cfg, a, m, b, id);
    }
    if Signs(cfg, short) ==> OwnShare(cfg, short).Some? {
      assert SharesWith(cfg, long, OwnShare(cfg, short)) == SharesWith(cfg, short, OwnShare(cfg, short));
    }
  }

  lemma InsertedFault<C, S, N>(cfg: Config<C, S, N>, a: seq<Message<C, S>>, m: Message<C, S>, b: seq<Message<C, S>>,
                              x: Message<C, S>)
    requires a != [] && Ignored(cfg, a, m)
    ensures Fault(cfg, a + [m] + b, x) == Fault(cfg, a + b, x)
  {
    InsertedCommitments(cfg, a, m, b);
    InsertedCommitments(cfg, a, m, b + [x]);
    assert a + [m] + b + [x] == a + [m] + (b + [x]) && a + b + [x] == a + (b + [x]);
    InsertedSigns(cfg, a, m, b);
    if x.id in SignerSet(cfg.signers) {
      InsertedOf(cfg, a, m, b, x.id);
    }
    if Signs(cfg, a) {
      SignedEarlier(cfg, a, b);
      MembersAreSigners(cfg.signers, cfg.self);
    }
  }

  lemma InsertedFaultFree<C, S, N>(cfg: Config<C, S, N>, a: seq<Message<C, S>>, m: Message<C, S>,
                                   b: seq<Message<C, S>>)
    requires a != [] && Ignored(cfg, a, m) && FaultFree(cfg, a + b)
    ensures FaultFree(cfg, a + [m] + b)
  {
    var long, short := a + [m] + b, a + b;
    forall i | 0 <= i < |long| ensures Fault(cfg, long[..i], long[i]).None? {
      if i < |a| {
        assert long[..i] == short[..i] && long[i] == short[i];
      } else if i == |a| {
        assert long[..i] == a && long[i] == m;
      } else {
        var k := i - |a| - 1;
        assert long[..i] == a + [m] + b[..k] && short[..|a| + k] == a + b[..k] && long[i] == b[k] == short[|a| + k];
        InsertedFault(cfg, a, m, b[..k], b[k]);
      }
    }
  }

  /** A repeated message, or one of a stranger, changes neither error nor result, wherever it is inserted between
      the first and the last message.  As the first message it would start the second round of a lone signer, and as
      the last it would finish a run that waits with everything collected. */
  lemma InsertedChangesNothing<C, S, N>(cfg: Config<C, S, N>, a: seq<Message<C, S>>, m: Message<C, S>,
                                        b: seq<Message<C, S>>)
    requires GoodConfig(cfg) && a != [] && b != [] && Ignored(cfg, a, m) && FaultFree(cfg, a + b)
    ensures ExecuteSpec(cfg, a + [m] + b).error == ExecuteSpec(cfg, a + b).error
    ensures ExecuteSpec(cfg, a + [m] + b).result == ExecuteSpec(cfg, a + b).result
  {
    InsertedFaultFree(cfg, a, m, b);
    RunOutcome(cfg, a + b);
    RunOutcome(cfg, a + [m] + b);
    InsertedEnding(cfg, a, m, b);
  }
}
