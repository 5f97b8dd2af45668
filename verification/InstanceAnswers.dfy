/** Who is answered, and with what: responders, results and statuses over whole runs of the instance manager, and
    where the messages of a run go. */
module InstanceAnswers {
  import opened Options
  import opened InstanceManager
  import opened InstanceSystem

  /** A system with more of its history: the responders of accepted synchronous starts, which instance each of them
      still waits for, the answers sent, and the last report of every id. */
  datatype Watch<R> = Watch(system: System<R>, accepted: set<nat>, waiting: map<Id, nat>, answers: map<nat, R>,
                            reports: map<Id, Terminal<R>>)

  function InitialWatch<R>(capacity: nat): Watch<R> {
    Watch(Initial(capacity), {}, map[], map[], map[])
  }

  /** The start is accepted: the id is new and its key is found. */
  predicate Accepted<R>(s: System<R>, a: Action<R>) {
    a.Start? && a.id !in s.manager.cache.instances && a.keyFound
  }

  function WatchStep<R>(w: Watch<R>, a: Action<R>): Watch<R> {
    var s, next := w.system, Step(w.system, a);
    if Accepted(s, a) && a.sync then
      w.(system := next, accepted := w.accepted + {s.nextResponder}, waiting := w.waiting[a.id := s.nextResponder])
    else if a.HandleTerminal? && s.queue != [] then
      var t := s.queue[0];
      w.(system := next, waiting := Without(w.waiting, [t.id]), reports := w.reports[t.id := t],
         answers := if |next.used| > |s.used| then w.answers[next.used[|s.used|] := t.result] else w.answers)
    else w.(system := next)
  }

  function WatchRun<R>(w: Watch<R>, actions: seq<Action<R>>): Watch<R>
    decreases |actions|
  {
    if actions == [] then w else WatchRun(WatchStep(w, actions[0]), actions[1..])
  }

  lemma {:induction false} WatchingChangesNothing<R>(w: Watch<R>, actions: seq<Action<R>>)
    ensures WatchRun(w, actions).system == Exec(w.system, actions)
    decreases |actions|
  {
    if actions != [] {
      assert WatchStep(w, actions[0]).system == Step(w.system, actions[0]);
      WatchingChangesNothing(WatchStep(w, actions[0]), actions[1..]);
    }
  }

  // ----- the invariant

  /** An instance without a report is as it was created, and holds the responder of its own start; an instance with
      a report holds the result and the status of that report. */
  ghost predicate EntryKept<R>(i: Instance<R>, id: Id, waiting: map<Id, nat>, reports: map<Id, Terminal<R>>) {
    if i.finished then
      && id in reports && i.result == Some(reports[id].result)
      && i.status == (if reports[id].status.Some? then reports[id].status.value else "created")
    else
      && i.status == "created" && i.result.None?
      && i.responder == (if id in waiting then Some(waiting[id]) else None)
  }

  ghost predicate EntriesKept<R>(c: Cache<R>, waiting: map<Id, nat>, reports: map<Id, Terminal<R>>) {
    && (forall id :: id in c.instances ==> EntryKept(c.instances[id], id, waiting, reports))
    && (forall id :: id in waiting ==> id in Unfinished(c))
  }

  ghost predicate Waits(waiting: map<Id, nat>, r: nat) {
    exists id :: id in waiting && waiting[id] == r
  }

  /** Every accepted responder waits for an unfinished instance, or has been answered. */
  ghost predicate AnswersOk<R>(w: Watch<R>) {
    && EntriesKept(w.system.manager.cache, w.waiting, w.reports)
    && (forall r :: r in w.accepted <==> r in w.system.used || Waits(w.waiting, r))
    && (forall r :: r in w.system.used <==> r in w.answers)
  }

  // ----- starts

  lemma InsertEntries<R>(c: Cache<R>, id: Id, responder: Option<nat>, waiting: map<Id, nat>,
                         reports: map<Id, Terminal<R>>)
    requires CacheOk(c) && EntriesKept(c, waiting, reports) && id !in c.instances
    ensures id !in waiting
    ensures var after := InsertSpec(c, id, NewInstance(responder));
            EntriesKept(after, if responder.Some? then waiting[id := responder.value] else waiting, reports)
  {
    var after := InsertSpec(c, id, NewInstance<R>(responder));
    var more := if responder.Some? then waiting[id := responder.value] else waiting;
    InsertKeeps(c, id, responder);
    assert id !in waiting;
    forall k | k in after.instances ensures EntryKept(after.instances[k], k, more, reports) {
      if k != id {
        InsertOthers(c, id, NewInstance(responder), k);
        assert EntryKept(c.instances[k], k, waiting, reports);
      }
    }
  }

  lemma InsertOthers<R>(c: Cache<R>, id: Id, i: Instance<R>, k: Id)
    requires k in InsertSpec(c, id, i).instances && k != id
    ensures k in c.instances && InsertSpec(c, id, i).instances[k] == c.instances[k]
  {
  }

  lemma WaitsMore(waiting: map<Id, nat>, id: Id, n: nat, r: nat)
    requires id !in waiting
    ensures Waits(waiting[id := n], r) <==> Waits(waiting, r) || r == n
  {
    var more := waiting[id := n];
    if Waits(waiting, r) {
      var k :| k in waiting && waiting[k] == r;
      assert k in more && more[k] == r;
    }
    if r == n {
      assert id in more && more[id] == r;
    }
  }

  lemma StartAnswers<R>(w: Watch<R>, a: Action<R>)
    requires LifecycleOk(w.system) && AnswersOk(w) && Accepted(w.system, a)
    ensures AnswersOk(WatchStep(w, a))
  {
    var s, c := w.system, w.system.manager.cache;
    var responder := if a.sync then Some(s.nextResponder) else None;
    InsertEntries(c, a.id, responder, w.waiting, w.reports);
    var after := WatchStep(w, a);
    assert after.system.manager.cache == InsertSpec(c, a.id, NewInstance(responder));
    assert after.system.used == s.used;
    if a.sync {
      forall r ensures Waits(after.waiting, r) <==> Waits(w.waiting, r) || r == s.nextResponder {
        WaitsMore(w.waiting, a.id, s.nextResponder, r);
      }
    }
  }

  // ----- terminal commands

  lemma HeadUnfinished<R>(s: System<R>)
    requires LifecycleOk(s) && s.queue != []
    ensures s.queue[0].id in Unfinished(s.manager.cache)
  {
    assert QueueIds(s.queue)[0] == s.queue[0].id && s.queue[0].id in QueueIds(s.queue);
  }

  /** The terminal command of an instance answers the responder of its own start, and nobody else, with the result
      that it carries, and that result is stored. */
  lemma TerminalAnswers<R>(w: Watch<R>)
    requires LifecycleOk(w.system) && AnswersOk(w) && w.system.queue != []
    ensures var t, after := w.system.queue[0], WatchStep(w, HandleTerminal);
            && after.system.used
               == (if t.id in w.waiting then w.system.used + [w.waiting[t.id]] else w.system.used)
            && after.answers == (if t.id in w.waiting then w.answers[w.waiting[t.id] := t.result] else w.answers)
            && t.id in after.system.manager.cache.instances
            && after.system.manager.cache.instances[t.id].result == Some(t.result)
  {
    var s := w.system;
    HeadUnfinished(s);
    assert EntryKept(s.manager.cache.instances[s.queue[0].id], s.queue[0].id, w.waiting, w.reports);
  }

  lemma TerminateEntries<R>(c: Cache<R>, t: Terminal<R>, waiting: map<Id, nat>, reports: map<Id, Terminal<R>>)
    requires CacheOk(c) && EntriesKept(c, waiting, reports) && t.id in Unfinished(c)
    ensures EntriesKept(TerminateSpec(c, t.id, t.status, t.result), Without(waiting, [t.id]), reports[t.id := t])
  {
    var after, left := TerminateSpec(c, t.id, t.status, t.result), Without(waiting, [t.id]);
    TerminateKeeps(c, t.id, t.status, t.result);
    assert EntryKept(c.instances[t.id], t.id, waiting, reports);
    forall id | id in after.instances ensures EntryKept(after.instances[id], id, left, reports[t.id := t]) {
      if id != t.id {
        assert EntryKept(c.instances[id], id, waiting, reports);
      }
    }
  }

  lemma WaitsLess(waiting: map<Id, nat>, id: Id, r: nat)
    ensures Waits(waiting, r) <==> Waits(Without(waiting, [id]), r) || (id in waiting && waiting[id] == r)
  {
    var less := Without(waiting, [id]);
    if Waits(waiting, r) {
      var k :| k in waiting && waiting[k] == r;
      assert k != id ==> k in less && less[k] == r;
    }
    if Waits(less, r) {
      var k :| k in less && less[k] == r;
      assert k in waiting && waiting[k] == r;
    }
  }

  lemma TerminalKeeps<R>(w: Watch<R>)
    requires LifecycleOk(w.system) && AnswersOk(w) && w.system.queue != []
    ensures AnswersOk(WatchStep(w, HandleTerminal))
  {
    var t, after := w.system.queue[0], WatchStep(w, HandleTerminal);
    HeadUnfinished(w.system);
    TerminalAnswers(w);
    TerminateEntries(w.system.manager.cache, t, w.waiting, w.reports);
    forall r ensures Waits(w.waiting, r)
                <==> Waits(after.waiting, r) || (t.id in w.waiting && w.waiting[t.id] == r)
    {
      WaitsLess(w.waiting, t.id, r);
    }
  }

  // ----- every run

  lemma OtherSteps<R>(s: System<R>, a: Action<R>)
    requires !Accepted(s, a) && !(a.HandleTerminal? && s.queue != [])
    ensures Step(s, a).manager.cache == s.manager.cache && Step(s, a).used == s.used
  {
  }

  lemma StepAnswers<R>(w: Watch<R>, a: Action<R>)
    requires LifecycleOk(w.system) && AnswersOk(w)
    ensures AnswersOk(WatchStep(w, a))
  {
    if Accepted(w.system, a) {
      StartAnswers(w, a);
    } else if a.HandleTerminal? && w.system.queue != [] {
      TerminalKeeps(w);
    } else {
      OtherSteps(w.system, a);
    }
  }

  /** Over every run: the responder of every accepted synchronous start is held by its own instance until the terminal
      command of that instance is handled, and is answered then; stored results and statuses are those reported. */
  lemma {:induction false} EveryRunAnswers<R>(w: Watch<R>, actions: seq<Action<R>>)
    requires LifecycleOk(w.system) && AnswersOk(w)
    ensures AnswersOk(WatchRun(w, actions))
    decreases |actions|
  {
    if actions != [] {
      StepLifecycle(w.system, actions[0]);
      StepAnswers(w, actions[0]);
      EveryRunAnswers(WatchStep(w, actions[0]), actions[1..]);
    }
  }

  lemma InitialAnswers<R>(capacity: nat)
    ensures LifecycleOk(Initial<R>(capacity)) && RespondersOk(Initial<R>(capacity)) && BacklogOk(Initial<R>(capacity))
    ensures AnswersOk(InitialWatch<R>(capacity))
  {
    InitialOk<R>(capacity);
  }

  /** When nothing is outstanding any more, every accepted responder has been answered, exactly once. */
  lemma NobodyIsForgotten<R>(capacity: nat, actions: seq<Action<R>>)
    ensures var w := WatchRun(InitialWatch<R>(capacity), actions);
            w.system.running == {} && w.system.queue == [] ==>
              NoDuplicates(w.system.used) && forall r :: r in w.accepted <==> r in w.system.used
  {
    var w0 := InitialWatch<R>(capacity);
    var w := WatchRun(w0, actions);
    InitialAnswers<R>(capacity);
    WatchingChangesNothing(w0, actions);
    EveryRunLifecycle(w0.system, actions);
    EveryRunResponders(w0.system, actions);
    EveryRunAnswers(w0, actions);
    if w.system.running == {} && w.system.queue == [] {
      assert Unfinished(w.system.manager.cache) == {};
      assert w.waiting == map[];
    }
  }

  // ----- where messages go

  /** A message is handed over exactly if its instance is running, dropped exactly if the instance has terminated, and
      backlogged otherwise. */
  lemma IncomingGoes<R>(s: System<R>, id: Id)
    requires LifecycleOk(s) && BacklogOk(s)
    ensures |s.dest| in Step(s, Incoming(id)).handed <==> id in Unfinished(s.manager.cache)
    ensures |s.dest| in Step(s, Incoming(id)).late <==> id in s.manager.cache.terminated
    ensures InBacklog(Step(s, Incoming(id)), |s.dest|) <==> id !in s.manager.cache.instances
  {
    var n, after := |s.dest|, Step(s, Incoming(id));
    assert n !in s.handed && n !in s.late;
    assert after.dest[n] == id;
    if id in s.manager.cache.instances {
      assert id !in after.manager.backlog;
    } else {
      BacklogGrows(s, id);
      assert after.manager.backlog[id].messages[|after.manager.backlog[id].messages| - 1] == n;
    }
  }

  /** A start hands over exactly the backlogged messages of its id, in the order of their arrival. */
  lemma StartHandsOver<R>(s: System<R>, id: Id)
    requires BacklogOk(s)
    ensures Increasing(Forwarded(s.manager, id))
    ensures forall n: nat :: n in Forwarded(s.manager, id) <==> n < |s.dest| && s.dest[n] == id && InBacklog(s, n)
  {
    if id in s.manager.backlog {
      assert EntryOk(s.dest, id, s.manager.backlog[id].messages);
    }
  }

  lemma StepFate<R>(s: System<R>, a: Action<R>)
    ensures s.handed <= Step(s, a).handed && s.late <= Step(s, a).late && |s.dest| <= |Step(s, a).dest|
    ensures forall n :: n in Step(s, a).late && n !in s.late ==> n >= |s.dest|
  {
  }

  /** What has been handed over or dropped stays so. */
  lemma {:induction false} FateStays<R>(s: System<R>, actions: seq<Action<R>>)
    ensures s.handed <= Exec(s, actions).handed && s.late <= Exec(s, actions).late
    ensures |s.dest| <= |Exec(s, actions).dest|
    ensures forall n :: n in Exec(s, actions).late && n !in s.late ==> n >= |s.dest|
    decreases |actions|
  {
    if actions != [] {
      StepFate(s, actions[0]);
      FateStays(Step(s, actions[0]), actions[1..]);
    }
  }

  lemma {:induction false} ExecAppend<R>(s: System<R>, a: seq<Action<R>>, b: seq<Action<R>>)
    ensures Exec(s, a + b) == Exec(Exec(s, a), b)
    decreases |a|
  {
    if a == [] {
      assert a + b == b;
    } else {
      assert (a + b)[0] == a[0] && (a + b)[1..] == a[1..] + b;
      ExecAppend(Step(s, a[0]), a[1..], b);
    }
  }

  /** Over every run: a message is dropped late if and only if its instance had terminated when it arrived, and one
      that arrives for a running instance is handed over. */
  lemma ArrivalDecides<R>(capacity: nat, before: seq<Action<R>>, id: Id, later: seq<Action<R>>)
    ensures var s := Exec(Initial<R>(capacity), before);
            var end := Exec(Initial<R>(capacity), before + ([Incoming(id)] + later));
            && (|s.dest| in end.late <==> id in s.manager.cache.terminated)
            && (|s.dest| in end.late ==> id in s.ended)
            && (id in Unfinished(s.manager.cache) ==> |s.dest| in end.handed)
  {
    var s0 := Initial<R>(capacity);
    var s := Exec(s0, before);
    InitialAnswers<R>(capacity);
    EveryRunLifecycle(s0, before);
    EveryRunBacklog(s0, before);
    ExecAppend(s0, before, [Incoming(id)] + later);
    ArrivalFrom(s, id, later);
  }

  lemma ArrivalFrom<R>(s: System<R>, id: Id, later: seq<Action<R>>)
    requires LifecycleOk(s) && BacklogOk(s)
    ensures var end := Exec(s, [Incoming(id)] + later);
            && (|s.dest| in end.late <==> id in s.manager.cache.terminated)
            && (|s.dest| in end.late ==> id in s.ended)
            && (id in Unfinished(s.manager.cache) ==> |s.dest| in end.handed)
  {
    var all: seq<Action<R>> := [Incoming(id)] + later;
    assert all[0] == Incoming(id) && all[1..] == later;
    var s1 := Step(s, Incoming(id));
    assert Exec(s, all) == Exec(s1, later);
    assert |s1.dest| == |s.dest| + 1;
    IncomingGoes(s, id);
    FateStays(s1, later);
  }
}
