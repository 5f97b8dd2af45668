/** The two-round FROST state machine (`src/core/protocols/src/frost/protocol.rs`) in the mode
    the service runs it in (no precomputation), driven by the generic executor
    (`src/core/orchestration/src/instance_manager/protocol_executor.rs`). */
module FrostProtocol {
  import opened Options
  import opened Interpolation

  datatype ProtocolError = InvalidShare | InternalError | InvalidRound | SchemeError | NotFinished | Panic

  datatype Data<C, S> =
    | CommitmentData(commitment: C)
    | ShareData(share: S)
    | PrecomputationData(list: seq<C>)
    | DefaultData
  datatype Message<C, S> = Message(id: int, data: Data<C, S>)

  /** What an instance is set up with.  `commit` is the nonce pair drawn in the first round with
      its public commitment; `verifies` says whether `verify_share` returns without an error;
      `sign` is `partial_sign`; `aggregates` says whether the group commitment exists. */
  datatype Config<!C, !S, !N> = Config(self: int, signers: seq<int>, threshold: nat, commit: (C, N),
                                       verifies: (S, map<int, C>) -> bool,
                                       sign: (N, map<int, C>) -> Option<S>,
                                       aggregates: map<int, C> -> bool)

  datatype State<C, S, N> = State(round: nat, nonce: Option<N>, commitments: map<int, C>,
                                  shares: map<int, S>, notVerified: set<int>, finished: bool)

  datatype Progress<T> = Continue(state: T) | Fail(error: ProtocolError)

  // ----- specification of the handlers

  function UpdateSpec<C, S, N>(cfg: Config<C, S, N>, st: State<C, S, N>, m: Message<C, S>): Progress<State<C, S, N>> {
    match m.data
    case CommitmentData(c) =>
      if m.id in cfg.signers && m.id !in st.commitments then
        var next := st.(commitments := st.commitments[m.id := c]);
        if m.id !in st.shares then Continue(next)
        else if cfg.verifies(st.shares[m.id], next.commitments)
        then Continue(next.(notVerified := next.notVerified - {m.id}))
        else Fail(InvalidShare)
      else Continue(st)
    case ShareData(s) =>
      if m.id in cfg.signers && m.id !in st.shares then
        if m.id !in st.commitments
        then Continue(st.(shares := st.shares[m.id := s], notVerified := st.notVerified + {m.id}))
        else if cfg.verifies(s, st.commitments) then Continue(st.(shares := st.shares[m.id := s]))
        else Fail(InvalidShare)
      else Continue(st)
    case PrecomputationData(list) =>
      if list == [] then Fail(InvalidShare) else Continue(st)
    case DefaultData => Fail(InternalError)
  }

  predicate AllIn<V>(signers: seq<int>, m: map<int, V>) {
    forall i :: 0 <= i < |signers| ==> signers[i] in m
  }

  predicate ReadyForNextRound<C, S, N>(cfg: Config<C, S, N>, st: State<C, S, N>) {
    match st.round
    case 1 => |st.commitments| >= cfg.threshold && AllIn(cfg.signers, st.commitments)
    case 2 => |st.shares| >= cfg.threshold && st.notVerified == {} && AllIn(cfg.signers, st.shares)
    case _ => false
  }

  predicate ReadyToFinalize<C, S, N>(cfg: Config<C, S, N>, st: State<C, S, N>) {
    |st.shares| == cfg.threshold && st.notVerified == {} && AllIn(cfg.signers, st.shares)
  }

  /** Whether this round calls `partial_sign`. */
  predicate SignsNow<C, S, N>(cfg: Config<C, S, N>, st: State<C, S, N>) {
    st.round == 1 && cfg.self in cfg.signers && cfg.self !in st.shares
  }

  function DoRoundSpec<C, S, N>(cfg: Config<C, S, N>, st: State<C, S, N>): Progress<State<C, S, N>> {
    if st.round == 0 then
      if cfg.self in cfg.signers && cfg.self !in st.commitments
      then Continue(st.(round := 1, nonce := Some(cfg.commit.1),
                        commitments := st.commitments[cfg.self := cfg.commit.0]))
      else Continue(st.(round := 1))
    else if st.round == 1 then
      if SignsNow(cfg, st) then
        if st.nonce.None? then Fail(Panic)
        else
          var share := cfg.sign(st.nonce.value, st.commitments);
          if share.None? then Fail(SchemeError)
          else Continue(st.(round := 2, shares := st.shares[cfg.self := share.value]))
      else Continue(st.(round := 2))
    else Fail(InvalidRound)
  }

  // ----- specification of a run

  /** A call of `partial_sign`: the nonce and the commitments it was given. */
  datatype Signing<C, N> = Signing(nonce: Option<N>, commitments: map<int, C>)

  /** A finished aggregation: the commitments and the shares it used. */
  datatype Aggregation<C, S> = Aggregation(commitments: map<int, C>, shares: map<int, S>)

  /** What the executor does with one message. */
  datatype Step<C, S, N> =
    | Next(state: State<C, S, N>, signings: seq<Signing<C, N>>)
    | Finished(aggregation: Aggregation<C, S>)
    | Stopped(error: ProtocolError, signings: seq<Signing<C, N>>)

  /** Once the message is taken in: finalization if ready, otherwise the next round if ready. */
  function AfterUpdate<C, S, N>(cfg: Config<C, S, N>, s1: State<C, S, N>): Step<C, S, N> {
    if ReadyToFinalize(cfg, s1) then
      if cfg.aggregates(s1.commitments) then Finished(Aggregation(s1.commitments, s1.shares))
      else Stopped(SchemeError, [])
    else if ReadyForNextRound(cfg, s1) then
      var signings := if SignsNow(cfg, s1) then [Signing(s1.nonce, s1.commitments)] else [];
      match DoRoundSpec(cfg, s1)
      case Fail(e) => Stopped(e, signings)
      case Continue(s2) => Next(s2, signings)
    else Next(s1, [])
  }

  function StepSpec<C, S, N>(cfg: Config<C, S, N>, st: State<C, S, N>, m: Message<C, S>): Step<C, S, N> {
    match UpdateSpec(cfg, st, m)
    case Fail(e) => Stopped(e, [])
    case Continue(s1) => AfterUpdate(cfg, s1)
  }

  /** A whole run: how it ended, every call of `partial_sign` in it, the aggregation if any, and the state
      before the message that ended it. */
  datatype Run<C, S, N> = Run(error: Option<ProtocolError>, signings: seq<Signing<C, N>>,
                              result: Option<Aggregation<C, S>>,
                              last: State<C, S, N>)

  function RunSpec<C, S, N>(cfg: Config<C, S, N>, st: State<C, S, N>, inbox: seq<Message<C, S>>): Run<C, S, N>
    decreases |inbox|
  {
    if inbox == [] then Run(Some(NotFinished), [], None, st)
    else
      match StepSpec(cfg, st, inbox[0])
      case Finished(aggregation) => Run(None, [], Some(aggregation), st)
      case Stopped(e, signings) => Run(Some(e), signings, None, st)
      case Next(next, signings) =>
        var rest := RunSpec(cfg, next, inbox[1..]);
        rest.(signings := signings + rest.signings)
  }

  function FreshState<C, S, N>(): State<C, S, N> {
    State(0, None, map[], map[], {}, false)
  }

  function FirstState<C, S, N>(cfg: Config<C, S, N>): State<C, S, N> {
    DoRoundSpec(cfg, FreshState<C, S, N>()).state
  }

  function ExecuteSpec<C, S, N>(cfg: Config<C, S, N>, inbox: seq<Message<C, S>>): Run<C, S, N> {
    RunSpec(cfg, FirstState(cfg), inbox)
  }

  // ----- the protocol object

  class Protocol<C, S, N> {
    const cfg: Config<C, S, N>
    var round: nat
    var nonce: Option<N>
    var commitmentList: map<int, C>
    var shares: map<int, S>
    var notVerifiedShares: set<int>
    var finished: bool

    constructor (cfg: Config<C, S, N>)
      ensures this.cfg == cfg && View() == FreshState<C, S, N>()
    {
      this.cfg := cfg;
      round, nonce, commitmentList, shares, notVerifiedShares, finished := 0, None, map[], map[], {}, false;
    }

    function View(): State<C, S, N>
      reads this
    {
      State(round, nonce, commitmentList, shares, notVerifiedShares, finished)
    }

    /** `update`. */
    method Update(m: Message<C, S>) returns (error: Option<ProtocolError>)
      modifies this
      ensures error == (match UpdateSpec(cfg, old(View()), m) case Fail(e) => Some(e) case Continue(_) => None)
      ensures error.None? ==> View() == UpdateSpec(cfg, old(View()), m).state
    {
      error := None;
      match m.data
      case CommitmentData(c) =>
        if m.id in cfg.signers && m.id !in commitmentList {
          commitmentList := commitmentList[m.id := c];
          if m.id in shares {
            if !cfg.verifies(shares[m.id], commitmentList) {
              return Some(InvalidShare);
            }
            shares := shares[m.id := shares[m.id]];
            assert shares == old(shares);
            notVerifiedShares := notVerifiedShares - {m.id};
          }
        }
      case ShareData(s) =>
        if m.id in cfg.signers && m.id !in shares {
          if m.id !in commitmentList {
            notVerifiedShares := notVerifiedShares + {m.id};
            shares := shares[m.id := s];
            return None;
          }
          if !cfg.verifies(s, commitmentList) {
            return Some(InvalidShare);
          }
          shares := shares[m.id := s];
        }
      case PrecomputationData(list) =>
        if list == [] {
          return Some(InvalidShare);
        }
      case DefaultData =>
        return Some(InternalError);
    }

    /** `do_round`; `signing` reports the call of `partial_sign`, if the round makes one. */
    method DoRound() returns (error: Option<ProtocolError>, signing: seq<Signing<C, N>>)
      modifies this
      ensures error == (match DoRoundSpec(cfg, old(View())) case Fail(e) => Some(e) case Continue(_) => None)
      ensures error.None? ==> View() == DoRoundSpec(cfg, old(View())).state
      ensures signing == if SignsNow(cfg, old(View())) then [Signing(old(nonce), old(commitmentList))] else []
    {
      error, signing := None, [];
      if round == 0 {
        if cfg.self in cfg.signers && cfg.self !in commitmentList {
          nonce := Some(cfg.commit.1);
          commitmentList := commitmentList[cfg.self := cfg.commit.0];
        }
        round := round + 1;
      } else if round == 1 {
        if cfg.self in cfg.signers && cfg.self !in shares {
          signing := [Signing(nonce, commitmentList)];
          if nonce.None? {
            return Some(Panic), signing;
          }
          var res := cfg.sign(nonce.value, commitmentList);
          if res.None? {
            return Some(SchemeError), signing;
          }
          round := round + 1;
          shares := shares[cfg.self := res.value];
        } else {
          round := round + 1;
        }
      } else {
        error := Some(InvalidRound);
      }
    }

    /** `finalize`: the commitments and shares that the signature is made of. */
    method Finalize() returns (result: Option<Aggregation<C, S>>)
      modifies this`finished
      ensures result == if cfg.aggregates(commitmentList) then Some(Aggregation(commitmentList, shares)) else None
      ensures finished == (old(finished) || result.Some?)
    {
      if cfg.aggregates(commitmentList) {
        finished := true;
        result := Some(Aggregation(commitmentList, shares));
      } else {
        result := None;
      }
    }
  }

  /** The body of the receive loop of `run`: `update`, then `finalize` or the next round when
      the protocol is ready. */
  method Receive<C, S, N>(protocol: Protocol<C, S, N>, m: Message<C, S>) returns (step: Step<C, S, N>)
    modifies protocol
    ensures step == StepSpec(protocol.cfg, old(protocol.View()), m)
    ensures step.Next? ==> step.state == protocol.View()
  {
    var error := protocol.Update(m);
    if error.Some? {
      return Stopped(error.value, []);
    }
    if ReadyToFinalize(protocol.cfg, protocol.View()) {
      var result := protocol.Finalize();
      return if result.Some? then Finished(result.value) else Stopped(SchemeError, []);
    } else if ReadyForNextRound(protocol.cfg, protocol.View()) {
      var signing;
      error, signing := protocol.DoRound();
      return if error.Some? then Stopped(error.value, signing) else Next(protocol.View(), signing);
    }
    step := Next(protocol.View(), []);
  }

  /** `run`: the initial round, then the receive loop until the instance ends. */
  method Execute<C, S, N>(cfg: Config<C, S, N>, inbox: seq<Message<C, S>>)
    returns (error: Option<ProtocolError>, signings: seq<Signing<C, N>>, result: Option<Aggregation<C, S>>,
             last: State<C, S, N>)
    ensures error == ExecuteSpec(cfg, inbox).error && last == ExecuteSpec(cfg, inbox).last
    ensures signings == ExecuteSpec(cfg, inbox).signings
    ensures result == ExecuteSpec(cfg, inbox).result
  {
    var protocol := new Protocol<C, S, N>(cfg);
    var first, none := protocol.DoRound();
    signings := [];
    ghost var full := ExecuteSpec(cfg, inbox);
    assert inbox[0..] == inbox;
    assert signings + full.signings == full.signings;
    for i := 0 to |inbox|
      invariant protocol.cfg == cfg
      invariant full.error == RunSpec(cfg, protocol.View(), inbox[i..]).error
      invariant full.result == RunSpec(cfg, protocol.View(), inbox[i..]).result
      invariant full.signings == signings + RunSpec(cfg, protocol.View(), inbox[i..]).signings
      invariant full.last == RunSpec(cfg, protocol.View(), inbox[i..]).last
    {
      assert inbox[i..][0] == inbox[i] && inbox[i..][1..] == inbox[i + 1..];
      last := protocol.View();
      var step := Receive(protocol, inbox[i]);
      match step {
        case Finished(aggregation) =>
          assert signings + [] == signings;
          return None, signings, Some(aggregation), last;
        case Stopped(e, signing) =>
          return Some(e), signings + signing, None, last;
        case Next(next, signing) =>
          ghost var rest := RunSpec(cfg, next, inbox[i + 1..]).signings;
          assert signings + (signing + rest) == (signings + signing) + rest;
          signings := signings + signing;
      }
    }
    assert signings + [] == signings;
    return Some(NotFinished), signings, None, protocol.View();
  }

  // ----- the invariant of every reachable state

  function SignerSet(signers: seq<int>): set<int> {
    set i | 0 <= i < |signers| :: signers[i]
  }

  /** The signer group has as many distinct members as the threshold of the key. */
  ghost predicate GoodConfig<C, S, N>(cfg: Config<C, S, N>) {
    Distinct(cfg.signers) && |cfg.signers| == cfg.threshold
  }

  ghost predicate Invariant<C, S, N>(cfg: Config<C, S, N>, st: State<C, S, N>) {
    && 1 <= st.round <= 2
    && st.commitments.Keys <= SignerSet(cfg.signers)
    && st.shares.Keys <= SignerSet(cfg.signers)
    && st.notVerified == st.shares.Keys - st.commitments.Keys
    && (cfg.self in cfg.signers ==>
          && st.nonce == Some(cfg.commit.1)
          && cfg.self in st.commitments && st.commitments[cfg.self] == cfg.commit.0)
    && (st.round == 2 ==> st.commitments.Keys == SignerSet(cfg.signers))
    && (st.round == 2 && cfg.self in cfg.signers ==> cfg.self in st.shares)
  }

  ghost predicate CommitmentsComplete<C, S, N>(cfg: Config<C, S, N>, st: State<C, S, N>) {
    st.commitments.Keys == SignerSet(cfg.signers)
  }

  /** One commitment and one share from every signer. */
  ghost predicate Complete<C, S, N>(cfg: Config<C, S, N>, st: State<C, S, N>) {
    CommitmentsComplete(cfg, st) && st.shares.Keys == SignerSet(cfg.signers)
  }

  lemma {:induction false} DistinctCardinality(s: seq<int>)
    requires Distinct(s)
    ensures |SignerSet(s)| == |s|
  {
    if s != [] {
      var n := |s| - 1;
      DistinctCardinality(s[..n]);
      assert SignerSet(s) == SignerSet(s[..n]) + {s[n]} by {
        forall x | x in SignerSet(s) ensures x in SignerSet(s[..n]) + {s[n]} {
          var i :| 0 <= i < |s| && s[i] == x;
          assert i < n ==> s[..n][i] == x;
        }
        forall x | x in SignerSet(s[..n]) ensures x in SignerSet(s) {
          var i :| 0 <= i < n && s[..n][i] == x;
          assert s[i] == x;
        }
        assert s[n] in SignerSet(s);
      }
      assert s[n] !in SignerSet(s[..n]);
    }
  }

  lemma MembersAreSigners(signers: seq<int>, id: int)
    ensures id in signers <==> id in SignerSet(signers)
  {
  }

  lemma AllInIff<V>(signers: seq<int>, m: map<int, V>)
    requires Distinct(signers) && m.Keys <= SignerSet(signers)
    ensures AllIn(signers, m) <==> m.Keys == SignerSet(signers)
    ensures AllIn(signers, m) ==> |m| == |signers|
  {
    DistinctCardinality(signers);
    assert |m| == |m.Keys|;
    if AllIn(signers, m) {
      forall x | x in SignerSet(signers) ensures x in m.Keys {
        var i :| 0 <= i < |signers| && signers[i] == x;
      }
    }
    if m.Keys == SignerSet(signers) {
      forall i | 0 <= i < |signers| ensures signers[i] in m {
        assert signers[i] in SignerSet(signers);
      }
    }
  }

  /** In a reachable state the readiness tests mean what their names say. */
  lemma ReadinessMeaning<C, S, N>(cfg: Config<C, S, N>, st: State<C, S, N>)
    requires GoodConfig(cfg) && Invariant(cfg, st)
    ensures ReadyToFinalize(cfg, st) <==> Complete(cfg, st)
    ensures st.round == 1 ==> (ReadyForNextRound(cfg, st) <==> CommitmentsComplete(cfg, st))
    ensures st.round == 2 && ReadyForNextRound(cfg, st) ==> ReadyToFinalize(cfg, st)
  {
    AllInIff(cfg.signers, st.commitments);
    AllInIff(cfg.signers, st.shares);
    assert forall x :: x in st.shares.Keys ==> x in st.notVerified || x in st.commitments.Keys;
  }

  lemma FirstStateInvariant<C, S, N>(cfg: Config<C, S, N>)
    ensures Invariant(cfg, FirstState(cfg)) && FirstState(cfg).round == 1 && FirstState(cfg).shares == map[]
  {
    MembersAreSigners(cfg.signers, cfg.self);
  }

  /** `update` keeps the invariant, never replaces a commitment or a share, and leaves the
      round and the nonce alone. */
  lemma UpdateKeeps<C, S, N>(cfg: Config<C, S, N>, st: State<C, S, N>, m: Message<C, S>)
    requires Invariant(cfg, st) && UpdateSpec(cfg, st, m).Continue?
    ensures var next := UpdateSpec(cfg, st, m).state;
            && Invariant(cfg, next)
            && next.round == st.round && next.nonce == st.nonce
            && (forall id :: id in st.commitments ==>
                 id in next.commitments && next.commitments[id] == st.commitments[id])
            && (forall id :: id in st.shares ==> id in next.shares && next.shares[id] == st.shares[id])
            && (CommitmentsComplete(cfg, st) ==> next.commitments == st.commitments)
  {
    MembersAreSigners(cfg.signers, m.id);
  }

  /** The second round, started when the protocol is ready for it, keeps the invariant and
      signs with the own nonce over the commitments of exactly the signer group. */
  lemma RoundKeeps<C, S, N>(cfg: Config<C, S, N>, st: State<C, S, N>)
    requires GoodConfig(cfg) && Invariant(cfg, st) && ReadyForNextRound(cfg, st) && !ReadyToFinalize(cfg, st)
    ensures st.round == 1 && CommitmentsComplete(cfg, st)
    ensures SignsNow(cfg, st) ==> st.nonce == Some(cfg.commit.1)
    ensures DoRoundSpec(cfg, st).Fail? ==> DoRoundSpec(cfg, st).error == SchemeError && SignsNow(cfg, st)
    ensures DoRoundSpec(cfg, st).Continue? ==>
              var next := DoRoundSpec(cfg, st).state;
              Invariant(cfg, next) && next.round == 2 && next.commitments == st.commitments
  {
    ReadinessMeaning(cfg, st);
    MembersAreSigners(cfg.signers, cfg.self);
  }

  // ----- safety of whole runs

  /** Every call of `partial_sign` uses the own nonce, over one commitment per signer, among
      them the own commitment. */
  ghost predicate GoodSigning<C, S, N>(cfg: Config<C, S, N>, e: Signing<C, N>) {
    && e.nonce == Some(cfg.commit.1)
    && e.commitments.Keys == SignerSet(cfg.signers)
    && cfg.self in e.commitments && e.commitments[cfg.self] == cfg.commit.0
  }

  /** Safety of the rest of a run from a reachable state. */
  ghost predicate SafeFrom<C, S, N>(cfg: Config<C, S, N>, st: State<C, S, N>, r: Run<C, S, N>) {
    && r.error != Some(InvalidRound) && r.error != Some(Panic)
    && |r.signings| <= (if st.round == 1 then 1 else 0)
    && (forall i :: 0 <= i < |r.signings| ==> GoodSigning(cfg, r.signings[i]))
    && (forall i :: 0 <= i < |r.signings| && CommitmentsComplete(cfg, st) ==>
          r.signings[i].commitments == st.commitments)
    && (r.result.Some? ==>
          && r.result.value.commitments.Keys == SignerSet(cfg.signers) == r.result.value.shares.Keys
          && (CommitmentsComplete(cfg, st) ==> r.result.value.commitments == st.commitments)
          && (forall i :: 0 <= i < |r.signings| ==> r.signings[i].commitments == r.result.value.commitments))
  }

  /** The same for one message. */
  ghost predicate GoodStep<C, S, N>(cfg: Config<C, S, N>, st: State<C, S, N>, step: Step<C, S, N>) {
    match step
    case Finished(a) =>
      && a.commitments.Keys == SignerSet(cfg.signers) == a.shares.Keys
      && (CommitmentsComplete(cfg, st) ==> a.commitments == st.commitments)
    case Stopped(e, signings) =>
      && e != InvalidRound && e != Panic
      && (signings == [] || (st.round == 1 && |signings| == 1 && GoodSigning(cfg, signings[0])
                             && (CommitmentsComplete(cfg, st) ==> signings[0].commitments == st.commitments)))
    case Next(next, signings) =>
      && Invariant(cfg, next)
      && (CommitmentsComplete(cfg, st) ==> CommitmentsComplete(cfg, next) && next.commitments == st.commitments)
      && next.round >= st.round
      && (signings == [] || (st.round == 1 && next.round == 2 && |signings| == 1 && GoodSigning(cfg, signings[0])
                             && CommitmentsComplete(cfg, next) && signings[0].commitments == next.commitments))
  }

  lemma StepIsGood<C, S, N>(cfg: Config<C, S, N>, st: State<C, S, N>, m: Message<C, S>)
    requires GoodConfig(cfg) && Invariant(cfg, st)
    ensures GoodStep(cfg, st, StepSpec(cfg, st, m))
  {
    if UpdateSpec(cfg, st, m).Continue? {
      var s1 := UpdateSpec(cfg, st, m).state;
      UpdateKeeps(cfg, st, m);
      ReadinessMeaning(cfg, s1);
      if !ReadyToFinalize(cfg, s1) && ReadyForNextRound(cfg, s1) {
        RoundKeeps(cfg, s1);
      }
    }
  }

  lemma {:induction false} RunIsSafe<C, S, N>(cfg: Config<C, S, N>, st: State<C, S, N>, inbox: seq<Message<C, S>>)
    requires GoodConfig(cfg) && Invariant(cfg, st)
    ensures SafeFrom(cfg, st, RunSpec(cfg, st, inbox))
    decreases |inbox|
  {
    if inbox != [] {
      StepIsGood(cfg, st, inbox[0]);
      var step := StepSpec(cfg, st, inbox[0]);
      if step.Next? {
        RunIsSafe(cfg, step.state, inbox[1..]);
        SafeExtends(cfg, st, step, RunSpec(cfg, step.state, inbox[1..]));
      }
    }
  }

  lemma SafeExtends<C, S, N>(cfg: Config<C, S, N>, st: State<C, S, N>, step: Step<C, S, N>, rest: Run<C, S, N>)
    requires step.Next? && Invariant(cfg, st) && GoodStep(cfg, st, step) && SafeFrom(cfg, step.state, rest)
    ensures SafeFrom(cfg, st, rest.(signings := step.signings + rest.signings))
  {
    if step.signings == [] {
      assert step.signings + rest.signings == rest.signings;
    } else {
      assert step.signings + rest.signings == step.signings;
    }
  }

  /** Nonce and commitment safety over every run, whatever is delivered: `partial_sign` is
      called at most once, with the node's own nonce, on a commitment map whose domain is
      exactly the signer group; `finalize` aggregates that identical map, with one share per
      signer; and neither `InvalidRound` nor the missing-nonce panic can happen. */
  lemma EveryRunIsSafe<C, S, N>(cfg: Config<C, S, N>, inbox: seq<Message<C, S>>)
    requires GoodConfig(cfg)
    ensures var r := ExecuteSpec(cfg, inbox);
            && |r.signings| <= 1
            && (forall i :: 0 <= i < |r.signings| ==> GoodSigning(cfg, r.signings[i]))
            && (r.result.Some? ==>
                  && r.result.value.commitments.Keys == SignerSet(cfg.signers) == r.result.value.shares.Keys
                  && (forall i :: 0 <= i < |r.signings| ==> r.signings[i].commitments == r.result.value.commitments))
            && r.error != Some(InvalidRound) && r.error != Some(Panic)
  {
    FirstStateInvariant(cfg);
    RunIsSafe(cfg, FirstState(cfg), inbox);
  }

  // ----- progress

  /** With everything collected, any further message that is not an error finalizes. */
  lemma OneMoreMessageFinalizes<C, S, N>(cfg: Config<C, S, N>, st: State<C, S, N>, m: Message<C, S>)
    requires GoodConfig(cfg) && Invariant(cfg, st) && Complete(cfg, st)
    requires UpdateSpec(cfg, st, m).Continue?
    ensures StepSpec(cfg, st, m) == if cfg.aggregates(st.commitments)
                                    then Finished(Aggregation(st.commitments, st.shares))
                                    else Stopped(SchemeError, [])
  {
    UpdateKeeps(cfg, st, m);
    MembersAreSigners(cfg.signers, m.id);
    ReadinessMeaning(cfg, st);
  }

  /** The ids with a commitment, or with a share, once a message has been taken in. */
  function CommittedWith<C, S, N>(cfg: Config<C, S, N>, st: State<C, S, N>, m: Message<C, S>): set<int> {
    st.commitments.Keys + (if m.data.CommitmentData? && m.id in cfg.signers then {m.id} else {})
  }

  function SharedWith<C, S, N>(cfg: Config<C, S, N>, st: State<C, S, N>, m: Message<C, S>): set<int> {
    st.shares.Keys + (if m.data.ShareData? && m.id in cfg.signers then {m.id} else {})
  }

  /** Before the message: the first round, in which this message brings the last commitment, and every share
      but the own one is there. */
  ghost predicate OnlyOwnShareMissing<C, S, N>(cfg: Config<C, S, N>, st: State<C, S, N>, m: Message<C, S>) {
    && st.round == 1 && cfg.self in cfg.signers && cfg.self !in SharedWith(cfg, st, m)
    && CommittedWith(cfg, st, m) == SignerSet(cfg.signers)
    && SharedWith(cfg, st, m) + {cfg.self} == SignerSet(cfg.signers)
  }

  lemma UpdatedKeys<C, S, N>(cfg: Config<C, S, N>, st: State<C, S, N>, m: Message<C, S>)
    requires Invariant(cfg, st) && UpdateSpec(cfg, st, m).Continue?
    ensures UpdateSpec(cfg, st, m).state.commitments.Keys == CommittedWith(cfg, st, m)
    ensures UpdateSpec(cfg, st, m).state.shares.Keys == SharedWith(cfg, st, m)
  {
  }

  /** A run goes on with everything collected in exactly one situation, visible before the message: it is
      accepted, only the own share is missing after it, and signing succeeds.  The executor tests for
      finalization before the round that adds the own share, not after it. */
  lemma WaitsWithAllSharesIff<C, S, N>(cfg: Config<C, S, N>, st: State<C, S, N>, m: Message<C, S>)
    requires GoodConfig(cfg) && Invariant(cfg, st)
    ensures StepSpec(cfg, st, m).Next? && Complete(cfg, StepSpec(cfg, st, m).state)
       <==> UpdateSpec(cfg, st, m).Continue? && OnlyOwnShareMissing(cfg, st, m)
            && cfg.sign(cfg.commit.1, UpdateSpec(cfg, st, m).state.commitments).Some?
  {
    if UpdateSpec(cfg, st, m).Continue? {
      UpdateKeeps(cfg, st, m);
      UpdatedKeys(cfg, st, m);
      WaitsAfterUpdateIff(cfg, UpdateSpec(cfg, st, m).state);
    }
  }

  lemma WaitsAfterUpdateIff<C, S, N>(cfg: Config<C, S, N>, s1: State<C, S, N>)
    requires GoodConfig(cfg) && Invariant(cfg, s1)
    ensures AfterUpdate(cfg, s1).Next? && Complete(cfg, AfterUpdate(cfg, s1).state)
       <==> s1.round == 1 && cfg.self in cfg.signers && cfg.self !in s1.shares.Keys
            && s1.commitments.Keys == SignerSet(cfg.signers)
            && s1.shares.Keys + {cfg.self} == SignerSet(cfg.signers)
            && cfg.sign(cfg.commit.1, s1.commitments).Some?
  {
    ReadinessMeaning(cfg, s1);
    MembersAreSigners(cfg.signers, cfg.self);
    if !ReadyToFinalize(cfg, s1) && ReadyForNextRound(cfg, s1) {
      RoundKeeps(cfg, s1);
      if DoRoundSpec(cfg, s1).Continue? {
        SecondRound(cfg, s1);
      }
    }
  }

  lemma SecondRound<C, S, N>(cfg: Config<C, S, N>, st: State<C, S, N>)
    requires Invariant(cfg, st) && st.round == 1 && DoRoundSpec(cfg, st).Continue?
    ensures DoRoundSpec(cfg, st).state.shares.Keys == if SignsNow(cfg, st) then st.shares.Keys + {cfg.self}
            else st.shares.Keys
  {
  }

  /** Full delivery does not always finish a run: with signers 1 and 2, node 1 that receives
      the share of node 2 before its commitment holds both commitments and both shares at the
      end of its inbox, and waits. */
  lemma FullDeliveryMayWait<C, S, N>(cfg: Config<C, S, N>, c: C, s: S, own: S)
    requires cfg.self == 1 && cfg.signers == [1, 2] && cfg.threshold == 2
    requires cfg.verifies(s, map[1 := cfg.commit.0, 2 := c])
    requires cfg.sign(cfg.commit.1, map[1 := cfg.commit.0, 2 := c]) == Some(own)
    ensures var r := ExecuteSpec(cfg, [Message(2, ShareData(s)), Message(2, CommitmentData(c))]);
            && r.error == Some(NotFinished)
            && r.last.commitments == map[1 := cfg.commit.0, 2 := c] && r.last.shares == map[1 := own, 2 := s]
  {
    var m1, m2 := Message(2, ShareData(s)), Message(2, CommitmentData(c));
    var s0 := State(1, Some(cfg.commit.1), map[1 := cfg.commit.0], map[], {}, false);
    assert FirstState(cfg) == s0;
    var s1 := s0.(shares := map[2 := s], notVerified := {2});
    assert cfg.signers[1] == 2 && s0.shares[2 := s] == s1.shares && s0.notVerified + {2} == s1.notVerified;
    assert UpdateSpec(cfg, s0, m1) == Continue(s1);
    assert StepSpec(cfg, s0, m1) == Next(s1, []);
    var both := map[1 := cfg.commit.0, 2 := c];
    assert s1.commitments[2 := c] == both;
    var s2 := s1.(commitments := both, notVerified := {});
    assert UpdateSpec(cfg, s1, m2) == Continue(s2);
    var s3 := s2.(round := 2, shares := map[1 := own, 2 := s]);
    assert s2.shares[1 := own] == s3.shares;
    assert !ReadyToFinalize(cfg, s2) by {
      assert cfg.signers[0] == 1;
    }
    assert |both| == 2 by {
      assert both.Keys == {1, 2};
    }
    assert ReadyForNextRound(cfg, s2);
    assert DoRoundSpec(cfg, s2) == Continue(s3);
    assert StepSpec(cfg, s1, m2).Next? && StepSpec(cfg, s1, m2).state == s3;
    assert [m1, m2][1..] == [m2] && [m2][1..] == [];
    assert RunSpec(cfg, s1, [m2]).error == Some(NotFinished) && RunSpec(cfg, s1, [m2]).last == s3;
  }
}
