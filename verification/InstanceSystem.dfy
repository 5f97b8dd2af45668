/** Whole runs of the instance manager: its event loop together with the protocol tasks it has
    spawned, their terminal commands on the way back, and the messages from the network. */
module InstanceSystem {
  import opened Options
  import opened InstanceManager

  /** A terminal command of a protocol task: `StoreResult`, or a failed `UpdateInstanceStatus`. */
  datatype Terminal<R> = Terminal(id: Id, status: Option<string>, result: R)

  /** The manager and its surroundings.  `running` are the spawned tasks that have not reported,
      `queue` the command channel.  The rest is history: responders handed out and used, ids in
      order of termination and of ejection, the destination of every message received (message
      n is the n-th), what became of the messages, the number of ticks, and for every backlog
      entry the tick count at its creation. */
  datatype System<R> = System(manager: Manager<R, nat>, running: set<Id>, queue: seq<Terminal<R>>,
                              nextResponder: nat, used: seq<nat>, ended: seq<Id>, ejected: seq<Id>,
                              dest: seq<Id>, handed: set<nat>, late: set<nat>, expired: set<nat>,
                              ticks: nat, born: map<Id, nat>)

  datatype Action<R> =
    | Start(id: Id, keyFound: bool, sync: bool)
    | TaskEnds(id: Id, status: Option<string>, result: R)
    | HandleTerminal
    | Incoming(id: Id)
    | Tick

  function Initial<R>(capacity: nat): System<R> {
    System(Manager(Cache(capacity, map[], []), map[]), {}, [], 0, [], [], [], [], {}, {}, {}, 0, map[])
  }

  function Elements<T>(s: seq<T>): set<T> {
    set x | x in s
  }

  /** The messages in backlog entries that the next tick deletes. */
  function Expiring<R>(m: Manager<R, nat>): set<nat> {
    set id, n | id in m.backlog && m.backlog[id].checked && n in m.backlog[id].messages :: n
  }

  function Step<R>(s: System<R>, a: Action<R>): System<R> {
    var c := s.manager.cache;
    match a
    case Start(id, keyFound, sync) =>
      var responder := if sync then Some(s.nextResponder) else None;
      var s1 := if sync then s.(nextResponder := s.nextResponder + 1) else s;
      if id in c.instances || !keyFound then s1
      else s1.(manager := StartSpec(s.manager, id, responder),
               running := s.running + {id},
               ejected := s.ejected + (if |c.instances| >= c.capacity then c.terminated[..EjectCount(c)] else []),
               handed := s.handed + Elements(Forwarded(s.manager, id)),
               born := Without(s.born, [id]))
    case TaskEnds(id, status, result) =>
      if id in s.running
      then s.(running := s.running - {id}, queue := s.queue + [Terminal(id, status, result)])
      else s
    case HandleTerminal =>
      if s.queue == [] then s
      else
        var t := s.queue[0];
        var reply := if t.id in c.instances then c.instances[t.id].responder else None;
        s.(manager := s.manager.(cache := TerminateSpec(c, t.id, t.status, t.result)),
           queue := s.queue[1..],
           used := if reply.Some? then s.used + [reply.value] else s.used,
           ended := if t.id in c.instances then s.ended + [t.id] else s.ended)
    case Incoming(id) =>
      var n := |s.dest|;
      var s1 := s.(manager := IncomingSpec(s.manager, id, n), dest := s.dest + [id]);
      (match IncomingDisposition(s.manager, id)
       case Handed => s1.(handed := s.handed + {n})
       case DroppedFinished => s1.(late := s.late + {n})
       case Backlogged => if id in s.manager.backlog then s1 else s1.(born := s.born[id := s.ticks]))
    case Tick =>
      s.(manager := TickSpec(s.manager), expired := s.expired + Expiring(s.manager), ticks := s.ticks + 1,
         born := map id | id in s.born && id in TickSpec(s.manager).backlog :: s.born[id])
  }

  function Exec<R>(s: System<R>, actions: seq<Action<R>>): System<R>
    decreases |actions|
  {
    if actions == [] then s else Exec(Step(s, actions[0]), actions[1..])
  }

  // ----- the cache

  ghost predicate NoDuplicates<T>(s: seq<T>) {
    forall i, j :: 0 <= i < j < |s| ==> s[i] != s[j]
  }

  /** The termination queue is duplicate-free and holds exactly the finished instances; an
      instance is finished when it has a result, and then its channel is closed and its
      responder gone. */
  ghost predicate CacheOk<R>(c: Cache<R>) {
    && NoDuplicates(c.terminated)
    && (forall id :: id in c.terminated <==> id in c.instances && c.instances[id].finished)
    && (forall id :: id in c.instances ==>
          var i := c.instances[id];
          && i.finished == i.result.Some? && i.open == !i.finished
          && (i.finished ==> i.responder.None?))
  }

  function Unfinished<R>(c: Cache<R>): set<Id> {
    set id | id in c.instances && !c.instances[id].finished
  }

  lemma EjectKeeps<R>(c: Cache<R>)
    requires CacheOk(c)
    ensures CacheOk(EjectSpec(c)) && Unfinished(EjectSpec(c)) == Unfinished(c)
  {
    var n, q := EjectCount(c), c.terminated;
    assert q == q[..n] + q[n..];
    forall id ensures id in q[n..] <==> id in q && id !in q[..n] {
    }
    forall id | id in Unfinished(c) ensures id !in q[..n] {
      assert id in q[..n] ==> id in q;
    }
  }

  lemma MakeRoomKeeps<R>(c: Cache<R>)
    requires CacheOk(c)
    ensures CacheOk(MakeRoom(c)) && Unfinished(MakeRoom(c)) == Unfinished(c)
    ensures MakeRoom(c).instances.Keys <= c.instances.Keys
  {
    EjectKeeps(c);
  }

  lemma InsertKeeps<R>(c: Cache<R>, id: Id, responder: Option<nat>)
    requires CacheOk(c) && id !in c.instances
    ensures CacheOk(InsertSpec(c, id, NewInstance(responder)))
    ensures Unfinished(InsertSpec(c, id, NewInstance(responder))) == Unfinished(c) + {id}
  {
    MakeRoomKeeps(c);
    var m, after := MakeRoom(c), InsertSpec(c, id, NewInstance<R>(responder));
    assert id !in m.instances && id !in m.terminated;
    forall x ensures x in Unfinished(after) <==> x in Unfinished(m) + {id} {
    }
  }

  lemma TerminateKeeps<R>(c: Cache<R>, id: Id, status: Option<string>, result: R)
    requires CacheOk(c) && id in Unfinished(c)
    ensures CacheOk(TerminateSpec(c, id, status, result))
    ensures Unfinished(TerminateSpec(c, id, status, result)) == Unfinished(c) - {id}
  {
    assert id !in c.terminated;
  }

  // ----- lifecycle: tasks, commands, termination order

  function QueueIds<R>(q: seq<Terminal<R>>): (ids: seq<Id>)
    ensures |ids| == |q| && forall i :: 0 <= i < |q| ==> ids[i] == q[i].id
  {
    seq(|q|, i requires 0 <= i < |q| => q[i].id)
  }

  /** Every unfinished instance has exactly one task outstanding, either running or with its
      one terminal command in the channel; nothing else is outstanding, so a command never
      meets a finished, missing or reused instance.  Ejection follows termination order. */
  ghost predicate LifecycleOk<R>(s: System<R>) {
    && CacheOk(s.manager.cache)
    && NoDuplicates(QueueIds(s.queue))
    && (forall id :: id in QueueIds(s.queue) ==> id !in s.running)
    && (forall id :: id in Unfinished(s.manager.cache) <==> id in s.running || id in QueueIds(s.queue))
    && s.ejected + s.manager.cache.terminated == s.ended
  }

  /** Ejection takes a prefix of the termination queue. */
  lemma EjectionOrder<R>(s: System<R>, a: Action<R>)
    requires CacheOk(s.manager.cache) && a.Start?
    ensures Step(s, a).ejected + Step(s, a).manager.cache.terminated == s.ejected + s.manager.cache.terminated
  {
    var c := s.manager.cache;
    if a.id !in c.instances && a.keyFound {
      if |c.instances| >= c.capacity {
        var n := EjectCount(c);
        assert (s.ejected + c.terminated[..n]) + c.terminated[n..] == s.ejected + c.terminated;
      } else {
        assert s.ejected + [] == s.ejected;
      }
    }
  }

  lemma StartLifecycle<R>(s: System<R>, a: Action<R>)
    requires LifecycleOk(s) && a.Start?
    ensures LifecycleOk(Step(s, a))
  {
    var c, after := s.manager.cache, Step(s, a);
    EjectionOrder(s, a);
    if a.id !in c.instances && a.keyFound {
      var responder := if a.sync then Some(s.nextResponder) else None;
      InsertKeeps(c, a.id, responder);
      assert after.manager.cache == InsertSpec(c, a.id, NewInstance(responder));
      assert a.id !in Unfinished(c);
    }
  }

  lemma TaskEndsLifecycle<R>(s: System<R>, a: Action<R>)
    requires LifecycleOk(s) && a.TaskEnds?
    ensures LifecycleOk(Step(s, a))
  {
    if a.id in s.running {
      var t := Terminal(a.id, a.status, a.result);
      assert QueueIds(s.queue + [t]) == QueueIds(s.queue) + [a.id];
      assert a.id !in QueueIds(s.queue);
      ExtendNoDuplicates(QueueIds(s.queue), a.id);
    }
  }

  lemma ExtendNoDuplicates<T>(s: seq<T>, x: T)
    requires NoDuplicates(s) && x !in s
    ensures NoDuplicates(s + [x])
  {
    var t := s + [x];
    forall i, j | 0 <= i < j < |t| ensures t[i] != t[j] {
      assert t[i] == s[i];
      assert s[i] in s;
    }
  }

  lemma TailWithoutHead<T>(ids: seq<T>, id: T)
    requires NoDuplicates(ids) && ids != []
    ensures id in ids[1..] <==> id in ids && id != ids[0]
  {
    assert ids == [ids[0]] + ids[1..];
    if id in ids[1..] {
      var k :| 0 <= k < |ids[1..]| && ids[1..][k] == id;
      assert ids[k + 1] == id;
    }
  }

  lemma TerminalLifecycle<R>(s: System<R>)
    requires LifecycleOk(s)
    ensures LifecycleOk(Step(s, HandleTerminal))
  {
    if s.queue != [] {
      var t, ids, c := s.queue[0], QueueIds(s.queue), s.manager.cache;
      assert ids[0] == t.id && t.id in ids;
      assert t.id in Unfinished(c);
      TerminateKeeps(c, t.id, t.status, t.result);
      assert QueueIds(s.queue[1..]) == ids[1..];
      forall id ensures id in ids[1..] <==> id in ids && id != t.id {
        TailWithoutHead(ids, id);
      }
      assert s.ejected + (c.terminated + [t.id]) == (s.ejected + c.terminated) + [t.id];
    }
  }

  lemma StepLifecycle<R>(s: System<R>, a: Action<R>)
    requires LifecycleOk(s)
    ensures LifecycleOk(Step(s, a))
  {
    match a
    case Start(_, _, _) => StartLifecycle(s, a);
    case TaskEnds(_, _, _) => TaskEndsLifecycle(s, a);
    case HandleTerminal => TerminalLifecycle(s);
    case Incoming(_) =>
    case Tick =>
  }

  /** The lifecycle invariant holds after every run. */
  lemma {:induction false} EveryRunLifecycle<R>(s: System<R>, actions: seq<Action<R>>)
    requires LifecycleOk(s)
    ensures LifecycleOk(Exec(s, actions))
    decreases |actions|
  {
    if actions != [] {
      StepLifecycle(s, actions[0]);
      EveryRunLifecycle(Step(s, actions[0]), actions[1..]);
    }
  }

  lemma InitialLifecycle<R>(capacity: nat)
    ensures LifecycleOk(Initial<R>(capacity))
  {
  }

  /** What the lifecycle means for a step: an unfinished instance leaves the cache in no step,
      and finishes only by its own terminal command. */
  lemma UnfinishedStays<R>(s: System<R>, a: Action<R>, id: Id)
    requires LifecycleOk(s) && id in Unfinished(s.manager.cache)
    ensures id in Step(s, a).manager.cache.instances
    ensures id !in Unfinished(Step(s, a).manager.cache) ==> a.HandleTerminal? && s.queue != [] && s.queue[0].id == id
  {
    var c := s.manager.cache;
    match a
    case Start(k, found, sync) =>
      if k !in c.instances && found {
        InsertKeeps(c, k, if sync then Some(s.nextResponder) else None);
      }
    case HandleTerminal =>
      if s.queue != [] {
        assert QueueIds(s.queue)[0] == s.queue[0].id && s.queue[0].id in QueueIds(s.queue);
        TerminateKeeps(c, s.queue[0].id, s.queue[0].status, s.queue[0].result);
      }
    case _ =>
  }

  // ----- one-shot responders

  /** Responders held by instances are distinct, handed out before, and not yet used; no
      responder has been used twice. */
  ghost predicate RespondersOk<R>(s: System<R>) {
    var m := s.manager.cache.instances;
    && NoDuplicates(s.used)
    && (forall r :: r in s.used ==> r < s.nextResponder)
    && (forall id :: id in m && m[id].responder.Some? ==>
          m[id].responder.value < s.nextResponder && m[id].responder.value !in s.used)
    && (forall id, id' :: id in m && id' in m && id != id' && m[id].responder.Some? ==>
          m[id].responder != m[id'].responder)
  }

  lemma StartResponders<R>(s: System<R>, a: Action<R>)
    requires LifecycleOk(s) && RespondersOk(s) && a.Start?
    ensures RespondersOk(Step(s, a))
  {
    var c, after := s.manager.cache, Step(s, a);
    if a.id !in c.instances && a.keyFound {
      MakeRoomKeeps(c);
      var m := after.manager.cache.instances;
      forall id | id in m && id != a.id ensures id in c.instances && m[id] == c.instances[id] {
      }
    }
  }

  lemma TerminalResponders<R>(s: System<R>)
    requires RespondersOk(s)
    ensures RespondersOk(Step(s, HandleTerminal))
  {
    var c := s.manager.cache;
    if s.queue != [] && s.queue[0].id in c.instances {
      var id, after := s.queue[0].id, Step(s, HandleTerminal);
      var m := after.manager.cache.instances;
      assert m[id].responder.None?;
      assert forall k :: k in m && k != id ==> k in c.instances && m[k] == c.instances[k];
      if c.instances[id].responder.Some? {
        ExtendNoDuplicates(s.used, c.instances[id].responder.value);
      }
    }
  }

  lemma StepResponders<R>(s: System<R>, a: Action<R>)
    requires LifecycleOk(s) && RespondersOk(s)
    ensures RespondersOk(Step(s, a))
  {
    match a
    case Start(_, _, _) => StartResponders(s, a);
    case HandleTerminal => TerminalResponders(s);
    case _ =>
  }

  /** Over every run, each synchronous responder is used at most once, even when instances are
      ejected and their ids reused. */
  lemma {:induction false} EveryRunResponders<R>(s: System<R>, actions: seq<Action<R>>)
    requires LifecycleOk(s) && RespondersOk(s)
    ensures RespondersOk(Exec(s, actions)) && NoDuplicates(Exec(s, actions).used)
    decreases |actions|
  {
    if actions != [] {
      StepLifecycle(s, actions[0]);
      StepResponders(s, actions[0]);
      EveryRunResponders(Step(s, actions[0]), actions[1..]);
    }
  }

  // ----- the size of the cache

  lemma {:induction false} ElementsCount<T>(s: seq<T>)
    requires NoDuplicates(s)
    ensures |Elements(s)| == |s|
  {
    if s != [] {
      var n := |s| - 1;
      ElementsCount(s[..n]);
      assert s == s[..n] + [s[n]];
      assert Elements(s) == Elements(s[..n]) + {s[n]};
      assert s[n] !in s[..n];
    }
  }

  /** The cache holds the unfinished instances and the termination queue. */
  lemma CacheSize<R>(c: Cache<R>)
    requires CacheOk(c)
    ensures |c.instances| == |Unfinished(c)| + |c.terminated|
  {
    ElementsCount(c.terminated);
    var u, t := Unfinished(c), Elements(c.terminated);
    assert c.instances.Keys == u + t;
    assert u !! t;
    assert |c.instances| == |c.instances.Keys|;
  }

  function Max(a: int, b: int): int {
    if a > b then a else b
  }

  /** The largest number of simultaneously unfinished instances along a run. */
  function PeakUnfinished<R>(s: System<R>, actions: seq<Action<R>>): nat
    decreases |actions|
  {
    if actions == [] then |Unfinished(s.manager.cache)|
    else
      var rest := PeakUnfinished(Step(s, actions[0]), actions[1..]);
      if rest > |Unfinished(s.manager.cache)| then rest else |Unfinished(s.manager.cache)|
  }

  lemma InsertSize<R>(c: Cache<R>, id: Id, responder: Option<nat>)
    requires CacheOk(c) && id !in c.instances
    ensures var after := InsertSpec(c, id, NewInstance(responder));
            |after.instances| <= Max(c.capacity, Max(|c.instances|, |Unfinished(after)|))
  {
    var after := InsertSpec(c, id, NewInstance<R>(responder));
    InsertKeeps(c, id, responder);
    MakeRoomKeeps(c);
    CacheSize(c);
    CacheSize(MakeRoom(c));
    CacheSize(after);
    assert id !in Unfinished(c);
    assert |Unfinished(c) + {id}| == |Unfinished(c)| + 1;
  }

  lemma StepSize<R>(s: System<R>, a: Action<R>)
    requires LifecycleOk(s)
    ensures var c, c' := s.manager.cache, Step(s, a).manager.cache;
            && c'.capacity == c.capacity
            && |c'.instances| <= Max(c.capacity, Max(|c.instances|, |Unfinished(c')|))
  {
    var c := s.manager.cache;
    match a
    case Start(id, found, sync) =>
      if id !in c.instances && found {
        InsertSize(c, id, if sync then Some(s.nextResponder) else None);
      }
    case HandleTerminal =>
      if s.queue != [] && s.queue[0].id in c.instances {
        var t := s.queue[0];
        assert TerminateSpec(c, t.id, t.status, t.result).instances.Keys == c.instances.Keys;
        assert |c.instances| == |c.instances.Keys|;
      }
    case _ =>
  }

  lemma {:induction false} SizeBound<R>(s: System<R>, actions: seq<Action<R>>, bound: nat)
    requires LifecycleOk(s)
    requires s.manager.cache.capacity <= bound && |s.manager.cache.instances| <= bound
             && PeakUnfinished(s, actions) <= bound
    ensures |Exec(s, actions).manager.cache.instances| <= bound
    decreases |actions|
  {
    if actions != [] {
      StepLifecycle(s, actions[0]);
      StepSize(s, actions[0]);
      PeakCoversStart(Step(s, actions[0]), actions[1..]);
      SizeBound(Step(s, actions[0]), actions[1..], bound);
    }
  }

  lemma PeakCoversStart<R>(s: System<R>, actions: seq<Action<R>>)
    ensures |Unfinished(s.manager.cache)| <= PeakUnfinished(s, actions)
  {
  }

  /** The cache bound: although one insertion ejects only a bounded prefix of the termination
      queue, the cache never holds more than the maximum of its capacity and the peak number
      of simultaneously unfinished instances. */
  lemma EveryRunCacheBound<R>(capacity: nat, actions: seq<Action<R>>)
    ensures |Exec(Initial<R>(capacity), actions).manager.cache.instances|
         <= Max(capacity, PeakUnfinished(Initial<R>(capacity), actions))
  {
    InitialLifecycle<R>(capacity);
    SizeBound(Initial<R>(capacity), actions, Max(capacity, PeakUnfinished(Initial<R>(capacity), actions)));
  }

  /** At capacity an insertion ejects all terminated instances, but at most 5000. */
  lemma EjectsExactly<R>(c: Cache<R>)
    requires CacheOk(c)
    ensures |c.instances| - |MakeRoom(c).instances|
         == if |c.instances| < c.capacity then 0 else if |c.terminated| < 5000 then |c.terminated| else 5000
  {
    MakeRoomKeeps(c);
    CacheSize(c);
    CacheSize(MakeRoom(c));
  }

  /** At capacity, one insertion ejects more than one instance exactly when two have terminated. */
  lemma EjectsSeveralIff<R>(c: Cache<R>)
    requires CacheOk(c)
    ensures |MakeRoom(c).instances| <= |c.instances| - 2 <==> |c.instances| >= c.capacity && |c.terminated| >= 2
  {
    MakeRoomKeeps(c);
    CacheSize(c);
    CacheSize(MakeRoom(c));
  }

  /** Below capacity an instance is added and nothing is ejected. */
  lemma StartWithRoom<R>(s: System<R>, id: Id)
    requires id !in s.manager.cache.instances && |s.manager.cache.instances| < s.manager.cache.capacity
    ensures var c, t := s.manager.cache, Step(s, Start(id, true, false));
            && t.manager.cache == c.(instances := c.instances[id := NewInstance(None)])
            && t.running == s.running + {id} && t.queue == s.queue
  {
  }

  /** Two instances are started in a manager with room for two. */
  lemma TwoStart<R>(s: System<R>)
    requires s == Initial(2)
    ensures var t := Step(Step(s, Start("a", true, false)), Start("b", true, false));
            && t.manager.cache == Cache(2, map["a" := NewInstance(None), "b" := NewInstance(None)], [])
            && t.running == {"a", "b"} && t.queue == []
  {
    StartWithRoom(s, "a");
    StartWithRoom(Step(s, Start("a", true, false)), "b");
  }

  /** Both report, and their terminal commands are handled. */
  lemma TwoEnd<R>(s: System<R>, r: R)
    requires s.manager.cache == Cache(2, map["a" := NewInstance(None), "b" := NewInstance(None)], [])
    requires s.running == {"a", "b"} && s.queue == []
    ensures var t := Step(Step(s, TaskEnds("a", None, r)), TaskEnds("b", None, r));
            var u := Step(Step(t, HandleTerminal), HandleTerminal).manager.cache;
            u.capacity == 2 && u.instances.Keys == {"a", "b"} && u.terminated == ["a", "b"]
  {
    var t := Step(Step(s, TaskEnds("a", None, r)), TaskEnds("b", None, r));
    assert t.manager == s.manager && t.queue == [Terminal("a", None, r), Terminal("b", None, r)];
    var u := Step(t, HandleTerminal);
    assert u.queue == [Terminal("b", None, r)] && u.manager.cache.terminated == ["a"];
  }

  lemma ExecSix<R>(s: System<R>, a: Action<R>, b: Action<R>, c: Action<R>, d: Action<R>, e: Action<R>, f: Action<R>)
    ensures Exec(s, [a, b, c, d, e, f]) == Step(Step(Step(Step(Step(Step(s, a), b), c), d), e), f)
  {
    var s1, s3 := Step(s, a), Step(Step(Step(s, a), b), c);
    assert [a, b, c, d, e, f][1..] == [b, c, d, e, f] && [b, c, d, e, f][1..] == [c, d, e, f];
    assert [c, d, e, f][1..] == [d, e, f] && [d, e, f][1..] == [e, f] && [e, f][1..] == [f];
    assert Exec(s1, [b, c, d, e, f]) == Exec(s3, [d, e, f]);
    assert Exec(Step(s3, d), [e, f]) == Exec(Step(Step(s3, d), e), [f]);
    assert Exec(Step(Step(s3, d), e), [f]) == Step(Step(Step(s3, d), e), f);
  }

  /** A run with room for two in which the insertion of a third instance ejects both of the others. */
  lemma SeveralEjectedInput<R>(r: R)
    ensures var s := Exec(Initial<R>(2), [Start("a", true, false), Start("b", true, false), TaskEnds("a", None, r),
                                         TaskEnds("b", None, r), HandleTerminal, HandleTerminal]);
            && s.manager.cache.instances.Keys == {"a", "b"}
            && Step(s, Start("c", true, false)).manager.cache.instances.Keys == {"c"}
  {
    var s := Initial<R>(2);
    TwoStart(s);
    TwoEnd(Step(Step(s, Start("a", true, false)), Start("b", true, false)), r);
    ExecSix(s, Start("a", true, false), Start("b", true, false), TaskEnds("a", None, r), TaskEnds("b", None, r),
            HandleTerminal, HandleTerminal);
    var t := Exec(s, [Start("a", true, false), Start("b", true, false), TaskEnds("a", None, r), TaskEnds("b", None, r),
                      HandleTerminal, HandleTerminal]);
    ThirdStarts(t);
  }

  lemma ThirdStarts<R>(s: System<R>)
    requires s.manager.cache.capacity == 2 && s.manager.cache.instances.Keys == {"a", "b"}
    requires s.manager.cache.terminated == ["a", "b"]
    ensures Step(s, Start("c", true, false)).manager.cache.instances.Keys == {"c"}
  {
    var c := s.manager.cache;
    assert |c.instances| == |c.instances.Keys| == 2;
    assert c.terminated[..2] == c.terminated;
    assert EjectSpec(c).instances.Keys == {};
  }

  // ----- the backlog

  ghost predicate Increasing(s: seq<nat>) {
    forall i, j :: 0 <= i < j < |s| ==> s[i] < s[j]
  }

  ghost predicate InBacklog<R>(s: System<R>, n: nat)
    requires n < |s.dest|
  {
    s.dest[n] in s.manager.backlog && n in s.manager.backlog[s.dest[n]].messages
  }

  /** Every message is in exactly one place: in the backlog, handed to its instance, dropped
      because the instance had finished, or dropped by a tick. */
  ghost predicate OnePlace<R>(s: System<R>, n: nat)
    requires n < |s.dest|
  {
    var b, h, l, e := InBacklog(s, n), n in s.handed, n in s.late, n in s.expired;
    (b || h || l || e) && !(b && h) && !(b && l) && !(b && e) && !(h && l) && !(h && e) && !(l && e)
  }

  /** The entry of an id holds messages to that id, in order of arrival. */
  ghost predicate EntryOk(dest: seq<Id>, id: Id, messages: seq<nat>) {
    Increasing(messages) && forall n :: n in messages ==> n < |dest| && dest[n] == id
  }

  lemma EntryGrows(dest: seq<Id>, id: Id, messages: seq<nat>)
    requires EntryOk(dest, id, messages)
    ensures EntryOk(dest + [id], id, messages + [|dest|])
  {
    assert forall i :: 0 <= i < |messages| ==> messages[i] in messages;
  }

  ghost predicate BacklogOk<R>(s: System<R>) {
    var m := s.manager;
    && (forall id :: id in m.backlog ==> id !in m.cache.instances)
    && (forall id :: id in m.backlog ==> EntryOk(s.dest, id, m.backlog[id].messages))
    && (forall n :: n in s.handed || n in s.late || n in s.expired ==> n < |s.dest|)
    && (forall n :: 0 <= n < |s.dest| ==> OnePlace(s, n))
    && s.born.Keys == m.backlog.Keys
    && (forall id :: id in m.backlog ==> s.born[id] <= s.ticks && (m.backlog[id].checked <==> s.born[id] < s.ticks))
  }

  lemma StartBacklog<R>(s: System<R>, a: Action<R>)
    requires LifecycleOk(s) && BacklogOk(s) && a.Start?
    ensures BacklogOk(Step(s, a))
  {
    var c, after := s.manager.cache, Step(s, a);
    if a.id !in c.instances && a.keyFound {
      MakeRoomKeeps(c);
      assert after.born.Keys == after.manager.backlog.Keys;
      forall n | 0 <= n < |after.dest| ensures OnePlace(after, n) {
        assert OnePlace(s, n);
        if s.dest[n] == a.id && InBacklog(s, n) {
          assert n in Forwarded(s.manager, a.id);
        }
      }
    } else {
      forall n | 0 <= n < |after.dest| ensures OnePlace(after, n) {
        assert OnePlace(s, n);
      }
    }
  }

  /** A message for an id without an instance: the entry of the id grows by it. */
  lemma BacklogGrows<R>(s: System<R>, id: Id)
    requires BacklogOk(s) && id !in s.manager.cache.instances
    ensures var after := Step(s, Incoming(id));
            && after.manager.cache == s.manager.cache && after.dest == s.dest + [id] && after.ticks == s.ticks
            && after.handed == s.handed && after.late == s.late && after.expired == s.expired
            && after.manager.backlog.Keys == s.manager.backlog.Keys + {id}
            && after.born.Keys == s.born.Keys + {id}
            && after.manager.backlog[id].messages
               == (if id in s.manager.backlog then s.manager.backlog[id].messages else []) + [|s.dest|]
            && (forall k :: k in s.manager.backlog && k != id ==>
                  after.manager.backlog[k] == s.manager.backlog[k] && after.born[k] == s.born[k])
            && after.born[id] <= s.ticks && (after.manager.backlog[id].checked <==> after.born[id] < s.ticks)
  {
  }

  lemma IncomingBacklog<R>(s: System<R>, id: Id)
    requires BacklogOk(s)
    ensures BacklogOk(Step(s, Incoming(id)))
  {
    var m, after, count := s.manager, Step(s, Incoming(id)), |s.dest|;
    assert forall k :: 0 <= k < count ==> after.dest[k] == s.dest[k];
    if id !in m.cache.instances {
      BacklogGrows(s, id);
      EntriesGrow(s, id, after);
    } else {
      forall n | 0 <= n < count ensures OnePlace(after, n) {
        assert OnePlace(s, n);
      }
      assert !InBacklog(after, count);
      assert OnePlace(after, count);
    }
  }

  /** The state after a message for `id` joined the backlog. */
  ghost predicate Grown<R>(s: System<R>, id: Id, after: System<R>) {
    && after.manager.cache == s.manager.cache && after.dest == s.dest + [id] && after.ticks == s.ticks
    && after.handed == s.handed && after.late == s.late && after.expired == s.expired
    && after.manager.backlog.Keys == s.manager.backlog.Keys + {id} && after.born.Keys == s.born.Keys + {id}
    && after.manager.backlog[id].messages
       == (if id in s.manager.backlog then s.manager.backlog[id].messages else []) + [|s.dest|]
    && (forall k :: k in s.manager.backlog && k != id ==>
          k in s.born && after.manager.backlog[k] == s.manager.backlog[k] && after.born[k] == s.born[k])
    && after.born[id] <= s.ticks && (after.manager.backlog[id].checked <==> after.born[id] < s.ticks)
  }

  lemma GrownPlace<R>(s: System<R>, id: Id, after: System<R>, n: nat)
    requires BacklogOk(s) && Grown(s, id, after) && n < |after.dest|
    ensures OnePlace(after, n)
  {
    if n < |s.dest| {
      assert OnePlace(s, n);
      assert InBacklog(after, n) <==> InBacklog(s, n);
    } else {
      assert after.dest[n] == id && n in after.manager.backlog[id].messages;
    }
  }

  lemma EntriesGrow<R>(s: System<R>, id: Id, after: System<R>)
    requires BacklogOk(s) && id !in s.manager.cache.instances && Grown(s, id, after)
    ensures BacklogOk(after)
  {
    var b := after.manager.backlog;
    EntryGrows(s.dest, id, if id in s.manager.backlog then s.manager.backlog[id].messages else []);
    forall k | k in b ensures EntryOk(after.dest, k, b[k].messages) {
      if k != id {
        assert EntryOk(s.dest, k, b[k].messages);
      }
    }
    forall n | 0 <= n < |after.dest| ensures OnePlace(after, n) {
      GrownPlace(s, id, after, n);
    }
  }

  lemma TickBacklog<R>(s: System<R>)
    requires BacklogOk(s)
    ensures BacklogOk(Step(s, Tick))
  {
    var m, after := s.manager, Step(s, Tick);
    forall n | 0 <= n < |after.dest| ensures OnePlace(after, n) {
      assert OnePlace(s, n);
      assert n in Expiring(m) <==> InBacklog(s, n) && m.backlog[s.dest[n]].checked;
    }
    forall n | n in after.expired ensures n < |after.dest| {
    }
  }

  lemma StepBacklog<R>(s: System<R>, a: Action<R>)
    requires LifecycleOk(s) && BacklogOk(s)
    ensures BacklogOk(Step(s, a))
  {
    match a
    case Start(_, _, _) => StartBacklog(s, a);
    case Incoming(id) => IncomingBacklog(s, id);
    case Tick => TickBacklog(s);
    case TaskEnds(_, _, _) =>
      forall n | 0 <= n < |s.dest| ensures OnePlace(Step(s, a), n) {
        assert OnePlace(s, n);
      }
    case HandleTerminal =>
      var after := Step(s, a);
      assert after.manager.cache.instances.Keys == s.manager.cache.instances.Keys;
      forall n | 0 <= n < |s.dest| ensures OnePlace(after, n) {
        assert OnePlace(s, n);
      }
  }

  /** Conservation over every run: no message is lost or duplicated, the entries keep arrival
      order, and backlog and cache never share an id. */
  lemma {:induction false} EveryRunBacklog<R>(s: System<R>, actions: seq<Action<R>>)
    requires LifecycleOk(s) && BacklogOk(s)
    ensures BacklogOk(Exec(s, actions))
    decreases |actions|
  {
    if actions != [] {
      StepLifecycle(s, actions[0]);
      StepBacklog(s, actions[0]);
      EveryRunBacklog(Step(s, actions[0]), actions[1..]);
    }
  }

  lemma InitialOk<R>(capacity: nat)
    ensures LifecycleOk(Initial<R>(capacity)) && RespondersOk(Initial<R>(capacity)) && BacklogOk(Initial<R>(capacity))
  {
  }

  /** A tick drops a message if and only if it is in an entry that existed at an earlier tick. */
  lemma TickDropsOldEntries<R>(s: System<R>, n: nat)
    requires BacklogOk(s) && n < |s.dest|
    ensures n in Step(s, Tick).expired && n !in s.expired
       <==> InBacklog(s, n) && s.born[s.dest[n]] < s.ticks
  {
    assert OnePlace(s, n);
    assert n in Expiring(s.manager) <==> InBacklog(s, n) && s.manager.backlog[s.dest[n]].checked;
  }

  /** That is a promise about entries, not about messages: a message that is backlogged is gone
      at the very next tick if and only if its id already had an entry from before a tick. */
  lemma NextTickDropsIff<R>(s: System<R>, id: Id)
    requires BacklogOk(s) && id !in s.manager.cache.instances
    ensures |s.dest| in Step(Step(s, Incoming(id)), Tick).expired
       <==> id in s.manager.backlog && s.manager.backlog[id].checked
  {
    var s1, n := Step(s, Incoming(id)), |s.dest|;
    IncomingBacklog(s, id);
    assert s1.dest[n] == id;
    assert n !in s.expired;
    assert n in s1.manager.backlog[id].messages;
    TickDropsOldEntries(s1, n);
  }

  /** The documented waiting time fails for single messages: here the second message arrives
      after the first tick and is dropped by the second. */
  lemma SecondMessageDroppedEarly<R>(capacity: nat)
    ensures var s := Exec(Initial<R>(capacity), [Incoming("a"), Tick, Incoming("a")]);
            1 !in s.expired && 1 in Step(s, Tick).expired && s.ticks == 1
  {
    var s0 := Initial<R>(capacity);
    InitialOk<R>(capacity);
    var s1 := Step(s0, Incoming("a"));
    IncomingBacklog(s0, "a");
    var s2 := Step(s1, Tick);
    TickBacklog(s1);
    var s3 := Step(s2, Incoming("a"));
    var acts: seq<Action<R>> := [Incoming("a"), Tick, Incoming("a")];
    assert acts[1..] == [Tick, Incoming("a")] && acts[1..][1..] == [Incoming("a")] && acts[1..][1..][1..] == [];
    assert Exec(s2, acts[1..][1..]) == Exec(s3, []) == s3;
    assert Exec(s1, acts[1..]) == s3;
    assert Exec(s0, acts) == s3;
    assert "a" in s2.manager.backlog && s2.manager.backlog["a"].checked;
    NextTickDropsIff(s2, "a");
  }
}
