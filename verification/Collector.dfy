/** The one-round share collectors (`src/core/protocols/src/threshold_cipher/protocol.rs`, and
    its twins for signatures and coins) under the generic executor
    (`src/core/orchestration/src/instance_manager/protocol_executor.rs`). */
module Collector {
  import opened Options
  import opened Groups
  import opened Fields
  import opened Interpolation
  import opened Residues
  import opened DlSharing

  datatype Verdict = Valid | Invalid | VerificationError

  /** What an instance is set up with: how shares are identified and verified, the result of
      computing the own share, the threshold of the key, and whether the assembly of shares succeeds. */
  datatype Setup<!S> =
    Setup(idOf: S -> int, verify: S -> Verdict, own: OwnShare<S>, threshold: nat, assembles: seq<S> -> bool)

  /** The result of the initial round: the own share, or the error that ends the instance. */
  datatype OwnShare<S> = Computed(share: S) | RoundFailed

  datatype Message<S> = ShareMessage(share: S) | DefaultMessage

  /** How a run ends: `Finalized` and `AssemblyFailed` carry the shares handed to the assembly step.
      `Crashed` is the panic on a default message, `ChannelClosed` the end of the incoming channel. */
  datatype Outcome<S> =
    | Finalized(used: seq<S>)
    | AssemblyFailed(used: seq<S>)
    | InitialRoundFailed
    | Crashed
    | ChannelClosed
  {
    /** The run got as far as the assembly step. */
    predicate Assembles() {
      Finalized? || AssemblyFailed?
    }
  }

  datatype State<S> = State(shares: seq<S>, received: set<int>, finished: bool)

  // ----- specification of the handlers

  function UpdateSpec<S>(cfg: Setup<S>, st: State<S>, share: S): State<S> {
    var id := cfg.idOf(share);
    if st.finished || id in st.received then st
    else if cfg.verify(share) != Valid then st.(received := st.received + {id})
    else st.(received := st.received + {id}, shares := st.shares + [share])
  }

  /** The run of the executor from a state with no own round left to do. */
  function RunSpec<S>(cfg: Setup<S>, st: State<S>, inbox: seq<Message<S>>): Outcome<S>
    decreases |inbox|
  {
    if inbox == [] then ChannelClosed
    else if inbox[0].DefaultMessage? then Crashed
    else
      var next := UpdateSpec(cfg, st, inbox[0].share);
      if |next.shares| < cfg.threshold then RunSpec(cfg, next, inbox[1..])
      else if cfg.assembles(next.shares) then Finalized(next.shares)
      else AssemblyFailed(next.shares)
  }

  function InitialState<S>(cfg: Setup<S>): State<S>
    requires cfg.own.Computed?
  {
    State([cfg.own.share], {cfg.idOf(cfg.own.share)}, false)
  }

  function ExecuteSpec<S>(cfg: Setup<S>, inbox: seq<Message<S>>): Outcome<S> {
    if cfg.own.RoundFailed? then InitialRoundFailed else RunSpec(cfg, InitialState(cfg), inbox)
  }

  // ----- the protocol object and the executor

  class ShareCollector<S(==)> {
    const cfg: Setup<S>
    var validShares: seq<S>
    var receivedShareIds: set<int>
    var finished: bool

    constructor (cfg: Setup<S>)
      ensures this.cfg == cfg && View() == State([], {}, false)
    {
      this.cfg := cfg;
      validShares, receivedShareIds, finished := [], {}, false;
    }

    function View(): State<S>
      reads this
    {
      State(validShares, receivedShareIds, finished)
    }

    predicate IsReadyForNextRound()
      reads this
    {
      |validShares| >= cfg.threshold
    }

    predicate IsReadyToFinalize()
      reads this
    {
      |validShares| >= cfg.threshold
    }

    /** `do_round`: computes the own share and counts it as received and valid. */
    method DoRound() returns (ok: bool)
      modifies this
      ensures ok == cfg.own.Computed?
      ensures ok ==> View() == old(View()).(shares := old(validShares) + [cfg.own.share],
                                            received := old(receivedShareIds) + {cfg.idOf(cfg.own.share)})
      ensures !ok ==> View() == old(View())
    {
      if cfg.own.RoundFailed? {
        return false;
      }
      receivedShareIds := receivedShareIds + {cfg.idOf(cfg.own.share)};
      validShares := validShares + [cfg.own.share];
      ok := true;
    }

    /** `update`: a share is looked at once per id, and kept when it verifies. */
    method Update(share: S)
      modifies this
      ensures View() == UpdateSpec(cfg, old(View()), share)
    {
      if finished {
        return;
      }
      if cfg.idOf(share) in receivedShareIds {
        return;
      }
      receivedShareIds := receivedShareIds + {cfg.idOf(share)};
      if cfg.verify(share) != Valid {
        return;
      }
      validShares := validShares + [share];
    }

    /** `finalize`: hands the valid shares to the assembly step; an error leaves the state as it is. */
    method Finalize() returns (outcome: Outcome<S>)
      modifies this
      ensures cfg.assembles(old(validShares)) ==>
                outcome == Finalized(old(validShares)) && View() == old(View()).(finished := true)
      ensures !cfg.assembles(old(validShares)) ==>
                outcome == AssemblyFailed(old(validShares)) && View() == old(View())
    {
      if !cfg.assembles(validShares) {
        return AssemblyFailed(validShares);
      }
      finished := true;
      outcome := Finalized(validShares);
    }
  }

  /** `run`: the initial round, then one `update` per message until the collector is ready.
      The second round that the executor would start is never reached, because a collector
      that is ready for it has been finalized. */
  method Execute<S(==)>(cfg: Setup<S>, inbox: seq<Message<S>>) returns (outcome: Outcome<S>)
    ensures outcome == ExecuteSpec(cfg, inbox)
  {
    var protocol := new ShareCollector<S>(cfg);
    var ok := protocol.DoRound();
    if !ok {
      return InitialRoundFailed;
    }
    assert protocol.View() == InitialState(cfg);
    for i := 0 to |inbox|
      invariant protocol.cfg == cfg && !protocol.finished
      invariant ExecuteSpec(cfg, inbox) == RunSpec(cfg, protocol.View(), inbox[i..])
    {
      assert inbox[i..][0] == inbox[i] && inbox[i..][1..] == inbox[i + 1..];
      match inbox[i]
      case DefaultMessage =>
        return Crashed;
      case ShareMessage(share) =>
        protocol.Update(share);
        if protocol.IsReadyToFinalize() {
          outcome := protocol.Finalize();
          return;
        }
        assert !protocol.IsReadyForNextRound();
    }
    outcome := ChannelClosed;
  }

  // ----- what every run keeps

  ghost predicate DistinctShares<S>(cfg: Setup<S>, shares: seq<S>) {
    forall i, j :: 0 <= i < j < |shares| ==> cfg.idOf(shares[i]) != cfg.idOf(shares[j])
  }

  ghost predicate Invariant<S>(cfg: Setup<S>, st: State<S>) {
    && !st.finished && cfg.own.Computed?
    && 0 < |st.shares| && st.shares[0] == cfg.own.share
    && DistinctShares(cfg, st.shares)
    && (forall i :: 0 <= i < |st.shares| ==> cfg.idOf(st.shares[i]) in st.received)
    && (forall i :: 1 <= i < |st.shares| ==> cfg.verify(st.shares[i]) == Valid)
  }

  lemma UpdateKeeps<S>(cfg: Setup<S>, st: State<S>, share: S)
    requires Invariant(cfg, st)
    ensures Invariant(cfg, UpdateSpec(cfg, st, share))
    ensures |UpdateSpec(cfg, st, share).shares| <= |st.shares| + 1
  {
  }

  /** What a finalizing node holds: its own share first, every other one verified, all from
      distinct parties, every one of them delivered, and at least the threshold in number;
      exactly the threshold, unless the own share alone was already enough. */
  ghost predicate GoodQuorum<S>(cfg: Setup<S>, inbox: seq<Message<S>>, used: seq<S>) {
    && cfg.own.Computed? && 0 < |used| && used[0] == cfg.own.share
    && DistinctShares(cfg, used)
    && (forall i :: 1 <= i < |used| ==> cfg.verify(used[i]) == Valid && ShareMessage(used[i]) in inbox)
    && |used| >= cfg.threshold
    && (cfg.threshold >= 2 ==> |used| == cfg.threshold)
    && (cfg.threshold <= 1 ==> |used| <= 2)
  }

  lemma {:induction false} RunGivesQuorum<S>(cfg: Setup<S>, st: State<S>, inbox: seq<Message<S>>, seen: seq<Message<S>>)
    requires Invariant(cfg, st) && (|st.shares| < cfg.threshold || |st.shares| == 1)
    requires forall i :: 1 <= i < |st.shares| ==> ShareMessage(st.shares[i]) in seen
    ensures var r := RunSpec(cfg, st, inbox);
            r.Assembles() ==> GoodQuorum(cfg, seen + inbox, r.used) && (r.Finalized? <==> cfg.assembles(r.used))
    decreases |inbox|
  {
    if inbox != [] && inbox[0].ShareMessage? {
      var next := UpdateSpec(cfg, st, inbox[0].share);
      UpdateKeeps(cfg, st, inbox[0].share);
      assert inbox[0] in seen + inbox;
      if |next.shares| < cfg.threshold {
        assert seen + inbox == (seen + [inbox[0]]) + inbox[1..];
        RunGivesQuorum(cfg, next, inbox[1..], seen + [inbox[0]]);
      }
    }
  }

  /** Safety of every run: whatever is delivered, in whatever order and however often. */
  lemma FinalizedIsQuorum<S>(cfg: Setup<S>, inbox: seq<Message<S>>)
    requires ExecuteSpec(cfg, inbox).Assembles()
    ensures GoodQuorum(cfg, inbox, ExecuteSpec(cfg, inbox).used)
    ensures ExecuteSpec(cfg, inbox).Finalized? <==> cfg.assembles(ExecuteSpec(cfg, inbox).used)
  {
    RunGivesQuorum(cfg, InitialState(cfg), inbox, []);
    assert [] + inbox == inbox;
  }

  // ----- a run finalizes as soon as enough has arrived

  /** The ids whose first delivered share, not counting the own id, verifies. */
  function GoodIds<S>(cfg: Setup<S>, received: set<int>, inbox: seq<Message<S>>): set<int>
    decreases |inbox|
  {
    if inbox == [] || inbox[0].DefaultMessage? then {}
    else
      var id := cfg.idOf(inbox[0].share);
      var rest := GoodIds(cfg, received + {id}, inbox[1..]);
      if id !in received && cfg.verify(inbox[0].share) == Valid then rest + {id} else rest
  }

  lemma {:induction false} GoodIdsFresh<S>(cfg: Setup<S>, received: set<int>, inbox: seq<Message<S>>)
    ensures GoodIds(cfg, received, inbox) !! received
    decreases |inbox|
  {
    if inbox != [] && inbox[0].ShareMessage? {
      GoodIdsFresh(cfg, received + {cfg.idOf(inbox[0].share)}, inbox[1..]);
    }
  }

  ghost predicate NoDefault<S>(inbox: seq<Message<S>>) {
    forall i :: 0 <= i < |inbox| ==> inbox[i].ShareMessage?
  }

  lemma {:induction false} RunFinalizesIff<S>(cfg: Setup<S>, st: State<S>, inbox: seq<Message<S>>)
    requires Invariant(cfg, st) && NoDefault(inbox)
    ensures RunSpec(cfg, st, inbox).Assembles()
       <==> inbox != [] && |st.shares| + |GoodIds(cfg, st.received, inbox)| >= cfg.threshold
    decreases |inbox|
  {
    if inbox != [] {
      var id := cfg.idOf(inbox[0].share);
      var next := UpdateSpec(cfg, st, inbox[0].share);
      UpdateKeeps(cfg, st, inbox[0].share);
      GoodIdsFresh(cfg, st.received + {id}, inbox[1..]);
      assert id in st.received ==> st.received + {id} == st.received;
      RunFinalizesIff(cfg, next, inbox[1..]);
      assert inbox[1..] == [] ==> GoodIds(cfg, next.received, inbox[1..]) == {};
    }
  }

  /** Exactly when a node comes to assemble: it has received at least one message, and its own share
      together with the parties whose first share verifies reaches the threshold. */
  lemma FinalizesIff<S>(cfg: Setup<S>, inbox: seq<Message<S>>)
    requires cfg.own.Computed? && NoDefault(inbox)
    ensures ExecuteSpec(cfg, inbox).Assembles()
       <==> inbox != [] && 1 + |GoodIds(cfg, {cfg.idOf(cfg.own.share)}, inbox)| >= cfg.threshold
  {
    RunFinalizesIff(cfg, InitialState(cfg), inbox);
  }

  /** The first share that an inbox has under an id. */
  function FirstShare<S>(cfg: Setup<S>, inbox: seq<Message<S>>, id: int): Option<S> {
    if inbox == [] then None
    else if inbox[0].ShareMessage? && cfg.idOf(inbox[0].share) == id then Some(inbox[0].share)
    else FirstShare(cfg, inbox[1..], id)
  }

  /** What the first share under an id is decides about the id. */
  lemma {:induction false} GoodIdsAreFirst<S>(cfg: Setup<S>, received: set<int>, inbox: seq<Message<S>>, id: int)
    requires NoDefault(inbox)
    ensures id in GoodIds(cfg, received, inbox)
       <==> id !in received && FirstShare(cfg, inbox, id).Some? && cfg.verify(FirstShare(cfg, inbox, id).value) == Valid
    decreases |inbox|
  {
    if inbox != [] {
      GoodIdsAreFirst(cfg, received + {cfg.idOf(inbox[0].share)}, inbox[1..], id);
    }
  }

  /** The messages before the first default message. */
  function BeforeDefault<S>(inbox: seq<Message<S>>): (pre: seq<Message<S>>)
    ensures NoDefault(pre) && pre <= inbox
  {
    if inbox == [] || inbox[0].DefaultMessage? then [] else [inbox[0]] + BeforeDefault(inbox[1..])
  }

  lemma {:induction false} RunBeforeDefault<S>(cfg: Setup<S>, st: State<S>, inbox: seq<Message<S>>)
    ensures var pre := BeforeDefault(inbox);
            if RunSpec(cfg, st, pre) == ChannelClosed && pre != inbox then RunSpec(cfg, st, inbox) == Crashed
            else RunSpec(cfg, st, inbox) == RunSpec(cfg, st, pre)
    decreases |inbox|
  {
    if inbox != [] && inbox[0].ShareMessage? {
      var pre, next := BeforeDefault(inbox), UpdateSpec(cfg, st, inbox[0].share);
      assert pre[0] == inbox[0] && pre[1..] == BeforeDefault(inbox[1..]);
      assert pre == inbox <==> pre[1..] == inbox[1..] by {
        assert inbox == [inbox[0]] + inbox[1..];
      }
      RunBeforeDefault(cfg, next, inbox[1..]);
    }
  }

  lemma {:induction false} WithoutDefault<S>(cfg: Setup<S>, st: State<S>, inbox: seq<Message<S>>)
    requires NoDefault(inbox)
    ensures RunSpec(cfg, st, inbox).Assembles() || RunSpec(cfg, st, inbox) == ChannelClosed
    decreases |inbox|
  {
    if inbox != [] {
      WithoutDefault(cfg, UpdateSpec(cfg, st, inbox[0].share), inbox[1..]);
    }
  }

  /** How every run ends: with the error of the initial round, with the assembly of a quorum if the messages before the
      first default message are enough, and otherwise with a crash at that message or with the end of the channel. */
  lemma EveryOutcome<S>(cfg: Setup<S>, inbox: seq<Message<S>>)
    ensures cfg.own.RoundFailed? ==> ExecuteSpec(cfg, inbox) == InitialRoundFailed
    ensures cfg.own.Computed? ==>
              var pre := BeforeDefault(inbox);
              if pre != [] && 1 + |GoodIds(cfg, {cfg.idOf(cfg.own.share)}, pre)| >= cfg.threshold
              then ExecuteSpec(cfg, inbox) == ExecuteSpec(cfg, pre) && ExecuteSpec(cfg, inbox).Assembles()
              else ExecuteSpec(cfg, inbox) == if pre == inbox then ChannelClosed else Crashed
  {
    if cfg.own.Computed? {
      var pre := BeforeDefault(inbox);
      FinalizesIff(cfg, pre);
      WithoutDefault(cfg, InitialState(cfg), pre);
      RunBeforeDefault(cfg, InitialState(cfg), inbox);
    }
  }

  /** Once finished, a collector takes in nothing more. */
  lemma {:induction false} FinishedStays<S>(cfg: Setup<S>, st: State<S>, shares: seq<S>)
    requires st.finished
    ensures AfterShares(cfg, st, shares) == st
    decreases |shares|
  {
    if shares != [] {
      FinishedStays(cfg, st, shares[1..]);
    }
  }

  function AfterShares<S>(cfg: Setup<S>, st: State<S>, shares: seq<S>): State<S>
    decreases |shares|
  {
    if shares == [] then st else AfterShares(cfg, UpdateSpec(cfg, st, shares[0]), shares[1..])
  }

  // ----- agreement between nodes

  /** Sound verification for one request: a share that verifies is u raised to the value of the
      sharing polynomial at an id in 1..n; so is the own share of an honest node. */
  ghost predicate Sound<G(!new)>(group: AbelianGroup<G>, u: G, q: int, a: seq<int>, n: nat, cfg: Setup<DlShare<G>>)
    requires q > 0
  {
    && cfg.own.Computed? && Genuine(group, u, q, a, n, cfg.own.share)
    && (forall s :: cfg.idOf(s) == s.id)
    && (forall s :: cfg.verify(s) == Valid ==> Genuine(group, u, q, a, n, s))
  }

  ghost predicate Genuine<G(!new)>(group: AbelianGroup<G>, u: G, q: int, a: seq<int>, n: nat, s: DlShare<G>)
    requires q > 0
  {
    1 <= s.id <= n && s.data == group.Pow(u, Eval(ModField(q), a, s.id))
  }

  /** What `assemble` interpolates from the shares a node holds. */
  function Combined<G(!new)>(group: AbelianGroup<G>, q: int, used: seq<DlShare<G>>): G
    requires q > 0
  {
    WeightedProduct(group, q, Ids(used), Ids(used), Data(used))
  }

  /** A node that finalizes interpolates u^x, where x is the shared secret. */
  lemma FinalizedValue<G(!new)>(group: AbelianGroup<G>, u: G, q: int, a: seq<int>, n: nat,
                                cfg: Setup<DlShare<G>>, inbox: seq<Message<DlShare<G>>>)
    requires group.Lawful() && group.elem(u) && Prime(q) && group.Pow(u, q) == group.unit
    requires n < q && Reduced(q, a) && 0 < |a| == cfg.threshold
    requires Sound(group, u, q, a, n, cfg) && ExecuteSpec(cfg, inbox).Finalized?
    ensures Combined(group, q, ExecuteSpec(cfg, inbox).used) == group.Pow(u, a[|a| - 1])
  {
    FinalizedIsQuorum(cfg, inbox);
    var used := ExecuteSpec(cfg, inbox).used;
    forall i | 0 <= i < |used| ensures Genuine(group, u, q, a, n, used[i]) {
      if i > 0 {
        assert cfg.verify(used[i]) == Valid;
      }
    }
    Reconstructs(group, u, q, a, used);
  }

  /** Agreement: any two nodes that finalize the same request, after any deliveries, assemble
      the same group element. */
  lemma Agreement<G(!new)>(group: AbelianGroup<G>, u: G, q: int, a: seq<int>, n: nat,
                           cfg1: Setup<DlShare<G>>, inbox1: seq<Message<DlShare<G>>>,
                           cfg2: Setup<DlShare<G>>, inbox2: seq<Message<DlShare<G>>>)
    requires group.Lawful() && group.elem(u) && Prime(q) && group.Pow(u, q) == group.unit
    requires n < q && Reduced(q, a) && 0 < |a| == cfg1.threshold == cfg2.threshold
    requires Sound(group, u, q, a, n, cfg1) && Sound(group, u, q, a, n, cfg2)
    requires ExecuteSpec(cfg1, inbox1).Finalized? && ExecuteSpec(cfg2, inbox2).Finalized?
    ensures Combined(group, q, ExecuteSpec(cfg1, inbox1).used) == Combined(group, q, ExecuteSpec(cfg2, inbox2).used)
  {
    FinalizedValue(group, u, q, a, n, cfg1, inbox1);
    FinalizedValue(group, u, q, a, n, cfg2, inbox2);
  }
}
