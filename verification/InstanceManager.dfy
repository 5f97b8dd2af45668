/** The instance manager (`src/core/orchestration/src/instance_manager/instance_manager.rs` and
    `instance.rs`): the instance cache, the backlog, and the handlers of its event loop. */
module InstanceManager {
  import opened Options

  type Id = string

  /** An entry of the cache.  `open` says that the message channel to the protocol task is still
      held; `responder` names the one-shot channel of a synchronous caller until it is taken. */
  datatype Instance<R> = Instance(status: string, finished: bool, result: Option<R>, open: bool, responder: Option<nat>)

  datatype BacklogData<M> = BacklogData(messages: seq<M>, checked: bool)

  /** How many terminated instances one insertion looks at. */
  const CLEANUP_SCAN_LENGTH: nat := 5000

  datatype Cache<R> = Cache(capacity: nat, instances: map<Id, Instance<R>>, terminated: seq<Id>)

  datatype Manager<R, M> = Manager(cache: Cache<R>, backlog: map<Id, BacklogData<M>>)

  // ----- specification of the handlers

  function NewInstance<R>(responder: Option<nat>): Instance<R> {
    Instance("created", false, None, true, responder)
  }

  function Without<V>(m: map<Id, V>, ids: seq<Id>): map<Id, V> {
    map k | k in m && k !in ids :: m[k]
  }

  /** How many instances `attempt_eject` removes. */
  function EjectCount<R>(c: Cache<R>): (n: nat)
    ensures n <= |c.terminated|
  {
    if |c.terminated| < CLEANUP_SCAN_LENGTH then |c.terminated| else CLEANUP_SCAN_LENGTH
  }

  function EjectSpec<R>(c: Cache<R>): Cache<R> {
    var n := EjectCount(c);
    c.(instances := Without(c.instances, c.terminated[..n]), terminated := c.terminated[n..])
  }

  /** The cache that an insertion writes to: at capacity, after ejection. */
  function MakeRoom<R>(c: Cache<R>): Cache<R> {
    if |c.instances| >= c.capacity then EjectSpec(c) else c
  }

  function InsertSpec<R>(c: Cache<R>, id: Id, i: Instance<R>): Cache<R> {
    MakeRoom(c).(instances := MakeRoom(c).instances[id := i])
  }

  /** A result arriving for an instance: it is stored, the channel is closed, the instance joins
      the termination queue, and the responder is taken. */
  function TerminateSpec<R>(c: Cache<R>, id: Id, status: Option<string>, result: R): Cache<R> {
    if id in c.instances then
      var s := if status.Some? then status.value else c.instances[id].status;
      c.(instances := c.instances[id := Instance(s, true, Some(result), false, None)],
         terminated := c.terminated + [id])
    else c
  }

  /** `start` with the key found, for an id that is not in the cache: the instance is inserted
      and the backlog of its id is handed over. */
  function StartSpec<R, M>(m: Manager<R, M>, id: Id, responder: Option<nat>): Manager<R, M> {
    Manager(InsertSpec(m.cache, id, NewInstance(responder)), Without(m.backlog, [id]))
  }

  function Forwarded<R, M>(m: Manager<R, M>, id: Id): seq<M> {
    if id in m.backlog then m.backlog[id].messages else []
  }

  datatype Disposition = Handed | DroppedFinished | Backlogged

  function IncomingDisposition<R, M>(m: Manager<R, M>, id: Id): Disposition {
    if id !in m.cache.instances then Backlogged else if m.cache.instances[id].finished then DroppedFinished else Handed
  }

  function IncomingSpec<R, M>(m: Manager<R, M>, id: Id, msg: M): Manager<R, M> {
    if id in m.cache.instances then m
    else if id in m.backlog
    then m.(backlog := m.backlog[id := m.backlog[id].(messages := m.backlog[id].messages + [msg])])
    else m.(backlog := m.backlog[id := BacklogData([msg], false)])
  }

  function TickSpec<R, M>(m: Manager<R, M>): Manager<R, M> {
    m.(backlog := map id | id in m.backlog && !m.backlog[id].checked :: m.backlog[id].(checked := true))
  }

  // ----- the objects

  /** `InstanceCache`. */
  class InstanceCache<R> {
    const capacity: nat
    var instanceData: map<Id, Instance<R>>
    var terminatedInstances: seq<Id>

    constructor (capacity: nat)
      ensures View() == Cache(capacity, map[], [])
    {
      this.capacity := capacity;
      instanceData, terminatedInstances := map[], [];
    }

    function View(): Cache<R>
      reads this
    {
      Cache(capacity, instanceData, terminatedInstances)
    }

    /** `attempt_eject`: removes a bounded prefix of the termination queue. */
    method AttemptEject() returns (ejected: nat)
      modifies this
      ensures ejected == EjectCount(old(View())) && View() == EjectSpec(old(View()))
    {
      ghost var q, d := terminatedInstances, instanceData;
      var maxIterations := if |terminatedInstances| < CLEANUP_SCAN_LENGTH then |terminatedInstances|
        else CLEANUP_SCAN_LENGTH;
      ejected := 0;
      assert Without(d, q[..0]) == d;
      while ejected < maxIterations
        invariant ejected <= maxIterations <= |q|
        invariant terminatedInstances == q[ejected..]
        invariant instanceData == Without(d, q[..ejected])
      {
        var candidate := terminatedInstances[0];
        terminatedInstances := terminatedInstances[1..];
        instanceData := instanceData - {candidate};
        ejected := ejected + 1;
        assert q[..ejected] == q[..ejected - 1] + [candidate];
        assert instanceData == Without(d, q[..ejected]);
      }
    }

    /** `insert`. */
    method Insert(id: Id, i: Instance<R>)
      modifies this
      ensures View() == InsertSpec(old(View()), id, i)
    {
      if |instanceData| >= capacity {
        var ejected := AttemptEject();
      }
      instanceData := instanceData[id := i];
    }

    /** `set_result` on the entry followed by `inform_of_termination`; `reply` is the responder
        that the result is sent to, if the instance still holds one. */
    method Terminate(id: Id, status: Option<string>, result: R) returns (reply: Option<nat>)
      modifies this
      ensures View() == TerminateSpec(old(View()), id, status, result)
      ensures reply == if id in old(instanceData) then old(instanceData)[id].responder else None
    {
      if id !in instanceData {
        return None;
      }
      var i := instanceData[id];
      if status.Some? {
        i := i.(status := status.value);
      }
      i := i.(result := Some(result), finished := true, open := false);
      terminatedInstances := terminatedInstances + [id];
      reply := i.responder;
      i := i.(responder := None);
      instanceData := instanceData[id := i];
    }
  }

  /** The handlers of the event loop of `InstanceManager::run`. */
  class EventLoop<R, M> {
    const instances: InstanceCache<R>
    var backlog: map<Id, BacklogData<M>>

    constructor (capacity: nat)
      ensures View() == Manager(Cache(capacity, map[], []), map[]) && fresh(instances)
    {
      instances := new InstanceCache(capacity);
      backlog := map[];
    }

    function View(): Manager<R, M>
      reads this, instances
    {
      Manager(instances.View(), backlog)
    }

    /** `start`: for a known id nothing happens and the call succeeds; without a key it fails. */
    method Start(id: Id, keyFound: bool, responder: Option<nat>) returns (ok: bool, forwarded: seq<M>)
      modifies this, instances
      ensures id in old(View()).cache.instances ==> ok && View() == old(View()) && forwarded == []
      ensures id !in old(View()).cache.instances && !keyFound ==> !ok && View() == old(View()) && forwarded == []
      ensures id !in old(View()).cache.instances && keyFound ==>
                ok && View() == StartSpec(old(View()), id, responder) && forwarded == Forwarded(old(View()), id)
    {
      ok, forwarded := true, [];
      if id in instances.instanceData {
        return;
      }
      if !keyFound {
        return false, [];
      }
      instances.Insert(id, NewInstance(responder));
      if id in backlog {
        forwarded := backlog[id].messages;
      }
      backlog := backlog - {id};
      assert backlog == Without(old(backlog), [id]);
    }

    /** The two terminal commands: `StoreResult`, and `UpdateInstanceStatus` with an error. */
    method HandleTerminal(id: Id, status: Option<string>, result: R) returns (reply: Option<nat>)
      modifies this, instances
      ensures View() == old(View()).(cache := TerminateSpec(old(View()).cache, id, status, result))
      ensures reply == if id in old(View()).cache.instances then old(View()).cache.instances[id].responder else None
    {
      reply := instances.Terminate(id, status, result);
    }

    /** A message from the network. */
    method Incoming(id: Id, msg: M) returns (d: Disposition)
      modifies this
      ensures View() == IncomingSpec(old(View()), id, msg)
      ensures d == IncomingDisposition(old(View()), id)
    {
      if id in instances.instanceData {
        d := if instances.instanceData[id].finished then DroppedFinished else Handed;
      } else {
        d := Backlogged;
        if id in backlog {
          backlog := backlog[id := backlog[id].(messages := backlog[id].messages + [msg])];
        } else {
          backlog := backlog[id := BacklogData([msg], false)];
        }
      }
    }

    /** The backlog timer. */
    method Tick()
      modifies this
      ensures View() == TickSpec(old(View()))
    {
      var kept := map id | id in backlog && !backlog[id].checked :: backlog[id];
      backlog := map id | id in kept :: kept[id].(checked := true);
      assert backlog == TickSpec(old(View())).backlog;
    }
  }
}
