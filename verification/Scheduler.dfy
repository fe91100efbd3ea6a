/** The kernel's scheduler and wait queues, with their loops, each operation proved to make the step that
`SchedulerRuns` names.
 */
module Schedulers {
  import opened Wrappers
  import opened Ordered
  import opened SchedulerRuns
  import WaitRuns

  datatype WaitToken = WaitToken(queueId: int, taskId: int)

  class WaitQueue {
    const id: int
    var waiters: seq<int>

    constructor (id: int)
      ensures this.id == id && waiters == []
    {
      this.id := id;
      waiters := [];
    }

    /** A task waits at most once: registering twice keeps its place. */
    method Register(task: int) returns (token: WaitToken)
      modifies this
      ensures waiters == WaitRuns.Registered(old(waiters), task)
      ensures token == WaitToken(id, task)
    {
      if task !in waiters {
        waiters := waiters + [task];
      }
      token := WaitToken(id, task);
    }

    method PopFirst() returns (task: Option<int>)
      modifies this
      ensures old(waiters) == [] ==> task.None? && waiters == []
      ensures old(waiters) != [] ==> task == Some(old(waiters)[0]) && waiters == old(waiters)[1..]
    {
      if waiters == [] {
        return None;
      }
      task := Some(waiters[0]);
      waiters := waiters[1..];
    }
  }

  lemma {:induction false} WithoutAt(ready: seq<Task>, id: int, i: nat)
    requires i < |ready| && ready[i].id == id
    requires forall j :: 0 <= j < i ==> ready[j].id != id
    ensures Without(ready, id) == ready[..i] + ready[i + 1..]
  {
    if i > 0 {
      assert ready[1..][..i - 1] == ready[1..i];
      WithoutAt(ready[1..], id, i - 1);
      assert ready[..i] == [ready[0]] + ready[1..i];
    }
  }

  /** Waking everything blocked leaves nothing blocked. */
  lemma WakeAllEmpties(s: Sched)
    ensures WokenAll(s, Sorted(s.blocked.Keys)).blocked == map[]
  {
    WaitRuns.WokenAllBlocked(s, Sorted(s.blocked.Keys));
    ElemsSorted(s.blocked.Keys);
  }

  class Scheduler {
    var nextId: int
    var ready: seq<Task>
    var current: Option<Task>
    var blocked: map<int, Task>
    var nextQueue: int

    function View(): Sched
      reads this
    {
      Sched(ready, current, blocked)
    }

    constructor ()
      ensures View() == Sched([], None, map[]) && nextId == 1 && nextQueue == 1
    {
      nextId, ready, current, blocked, nextQueue := 1, [], None, map[], 1;
    }

    method CreateWaitQueue() returns (queue: WaitQueue)
      modifies this`nextQueue
      ensures fresh(queue) && queue.id == old(nextQueue) && queue.waiters == []
      ensures nextQueue == old(nextQueue) + 1
    {
      queue := new WaitQueue(nextQueue);
      nextQueue := nextQueue + 1;
    }

    method SpawnTask(thread: int, process: int) returns (id: int)
      modifies this
      ensures id == thread && View() == Step(old(View()), Spawn(thread, process))
      ensures nextId == (if old(nextId) < thread + 1 then thread + 1 else old(nextId)) && nextQueue == old(nextQueue)
    {
      id := thread;
      nextId := if nextId < id + 1 then id + 1 else nextId;
      ready := ready + [Task(id, process, Ready)];
    }

    method ScheduleNext() returns (id: Option<int>)
      modifies this`ready, this`current
      ensures View() == Next(old(View()))
      ensures id == if old(ready) == [] then None else Some(old(ready)[0].id)
    {
      if ready == [] {
        return None;
      }
      id := Some(ready[0].id);
      current := Some(ready[0].(state := Running));
      ready := ready[1..];
    }

    method Start() returns (id: Option<int>)
      modifies this`ready, this`current
      ensures View() == Step(old(View()), Op.Start)
      ensures id == if old(ready) == [] then None else Some(old(ready)[0].id)
    {
      id := ScheduleNext();
    }

    /** Afterwards something runs whenever there is anything to run, and the result names it. */
    method EnsureCurrent() returns (id: Option<int>)
      modifies this`ready, this`current
      ensures View() == Step(old(View()), Op.EnsureCurrent)
      ensures id.Some? <==> current.Some?
      ensures id.Some? ==> current.Some? && current.value.id == id.value
      ensures current.None? ==> old(ready) == []
    {
      if current.Some? {
        return Some(current.value.id);
      }
      id := ScheduleNext();
    }

    method YieldNow() returns (id: Option<int>)
      modifies this`ready, this`current
      ensures View() == Step(old(View()), Yield)
      ensures id.Some? <==> current.Some?
      ensures id.Some? ==> current.Some? && current.value.id == id.value
    {
      if current.Some? {
        var c := current.value;
        current := None;
        ready := ready + [c.(state := Ready)];
      }
      id := ScheduleNext();
    }

    method ExitCurrent()
      modifies this`current
      ensures View() == Step(old(View()), Op.ExitCurrent)
    {
      current := None;
    }

    method BlockCurrent() returns (id: Option<int>)
      modifies this
      ensures View() == Step(old(View()), Block)
      ensures id == if old(current).Some? then Some(old(current).value.id) else None
      ensures nextId == old(nextId) && nextQueue == old(nextQueue)
    {
      if current.None? {
        return None;
      }
      var c := current.value;
      current := None;
      blocked := blocked[c.id := c.(state := Blocked)];
      var dispatched := ScheduleNext();
      id := Some(c.id);
    }

    /** Blocking registers what was running in the queue it waits on. */
    method BlockCurrentOn(queue: WaitQueue) returns (token: Option<WaitToken>)
      modifies this, queue
      ensures View() == Step(old(View()), Block)
      ensures old(current).None? ==> token.None? && queue.waiters == old(queue.waiters)
      ensures old(current).Some? ==>
        var id := old(current).value.id;
        token == Some(WaitToken(queue.id, id)) && queue.waiters == WaitRuns.Registered(old(queue.waiters), id)
    {
      if current.None? {
        return None;
      }
      var c := current.value;
      current := None;
      var t := queue.Register(c.id);
      blocked := blocked[c.id := c.(state := Blocked)];
      var dispatched := ScheduleNext();
      token := Some(t);
    }

    method WakeTask(id: int) returns (woken: bool)
      modifies this`ready, this`blocked
      ensures View() == Step(old(View()), Wake(id))
      ensures woken == (id in old(blocked))
    {
      if id !in blocked {
        return false;
      }
      ready := ready + [blocked[id].(state := Ready)];
      blocked := blocked - {id};
      woken := true;
    }

    /** Wakes the given tasks in order and counts those that were blocked. */
    method WakeEach(ids: seq<int>) returns (woke: nat)
      modifies this`ready, this`blocked
      ensures View() == Step(old(View()), WakeMany(ids))
      ensures woke == |ready| - |old(ready)|
    {
      var todo := ids;
      woke := 0;
      while todo != []
        invariant WokenAll(View(), todo) == WokenAll(old(View()), ids)
        invariant woke == |ready| - |old(ready)|
        decreases |todo|
      {
        var woken := WakeTask(todo[0]);
        if woken {
          woke := woke + 1;
        }
        todo := todo[1..];
      }
    }

    method WakeAllBlocked() returns (woke: nat)
      modifies this`ready, this`blocked
      ensures View() == Step(old(View()), WakeMany(Sorted(old(blocked).Keys)))
      ensures blocked == map[] && woke == |ready| - |old(ready)|
    {
      WakeAllEmpties(View());
      woke := WakeEach(Sorted(blocked.Keys));
    }

    method WakeOne(queue: WaitQueue) returns (id: Option<int>)
      modifies this`ready, this`blocked, queue
      ensures old(queue.waiters) == [] ==> id.None? && View() == old(View())
      ensures old(queue.waiters) != [] ==> id == Some(old(queue.waiters)[0])
      ensures old(queue.waiters) != [] ==>
        queue.waiters == old(queue.waiters)[1..] && View() == Step(old(View()), Wake(old(queue.waiters)[0]))
    {
      id := queue.PopFirst();
      if id.None? {
        return;
      }
      var woken := WakeTask(id.value);
    }

    method WakeAll(queue: WaitQueue) returns (woke: nat)
      modifies this`ready, this`blocked, queue
      ensures queue.waiters == []
      ensures View() == Step(old(View()), WakeMany(old(queue.waiters)))
      ensures woke == |ready| - |old(ready)|
    {
      var ids := queue.waiters;
      queue.waiters := [];
      woke := WakeEach(ids);
    }

    method RemoveTask(id: int) returns (found: bool)
      modifies this`ready, this`current, this`blocked
      ensures View() == Step(old(View()), Remove(id))
      ensures found == old(Has(View(), id))
    {
      if current.Some? && current.value.id == id {
        current := None;
        return true;
      }
      var i := 0;
      while i < |ready|
        invariant 0 <= i <= |ready|
        invariant forall j :: 0 <= j < i ==> ready[j].id != id
      {
        if ready[i].id == id {
          WithoutAt(ready, id, i);
          ready := ready[..i] + ready[i + 1..];
          return true;
        }
        i := i + 1;
      }
      found := id in blocked;
      blocked := blocked - {id};
    }

    method RetainOthers(process: int) returns (removed: nat)
      modifies this`ready
      ensures ready == Others(old(ready), process) && removed == |old(ready)| - |ready|
    {
      var kept: seq<Task> := [];
      var i := 0;
      while i < |ready|
        invariant 0 <= i <= |ready|
        invariant kept + Others(ready[i..], process) == Others(ready, process)
        invariant |kept| <= i
      {
        assert ready[i..][1..] == ready[i + 1..];
        if ready[i].process != process {
          kept := kept + [ready[i]];
        }
        i := i + 1;
      }
      assert ready[i..] == [] && kept == Others(ready, process);
      removed := |ready| - |kept|;
      ready := kept;
    }

    method DropBlocked(process: int) returns (removed: nat)
      modifies this`blocked
      ensures blocked == old(blocked) - InGroup(old(blocked), process)
      ensures removed == |InGroup(old(blocked), process)|
    {
      hide Sorted, Elems, InGroup;
      ghost var group := InGroup(blocked, process);
      ElemsSorted(group);
      var todo := Sorted(InGroup(blocked, process));
      removed := 0;
      while todo != []
        invariant blocked - Elems(todo) == old(blocked) - group
        invariant removed + |todo| == |group|
        decreases |todo|
      {
        RemoveStep(blocked, todo);
        blocked := blocked - {todo[0]};
        removed := removed + 1;
        todo := todo[1..];
      }
      RemoveNone(blocked);
    }

    method ExitGroup(process: int) returns (removed: nat)
      modifies this`ready, this`current, this`blocked
      ensures View() == Step(old(View()), Op.ExitGroup(process))
      ensures removed ==
        |old(ready)| - |ready| + |InGroup(old(blocked), process)| + if current == old(current) then 0 else 1
    {
      removed := 0;
      if current.Some? && current.value.process == process {
        current := None;
        removed := 1;
      }
      var queued := RetainOthers(process);
      var waiting := DropBlocked(process);
      removed := removed + queued + waiting;
    }
  }
}
