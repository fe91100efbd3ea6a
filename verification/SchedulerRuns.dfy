/** The round-robin scheduler as a value: where each task is, what every operation does to that, and what
holds over every run.
 */
module SchedulerRuns {
  import opened Wrappers

  datatype State = Ready | Running | Blocked

  datatype Task = Task(id: int, process: int, state: State)

  datatype Sched = Sched(ready: seq<Task>, current: Option<Task>, blocked: map<int, Task>)

  // ----- the operations

  /** Dispatch the front of the ready queue, if there is one. */
  function Next(s: Sched): Sched
  {
    if s.ready == [] then s else s.(ready := s.ready[1..], current := Some(s.ready[0].(state := Running)))
  }

  function Spawned(s: Sched, id: int, process: int): Sched
  {
    s.(ready := s.ready + [Task(id, process, Ready)])
  }

  function Yielded(s: Sched): Sched
  {
    Next(match s.current
         case None => s
         case Some(c) => s.(current := None, ready := s.ready + [c.(state := Ready)]))
  }

  function BlockedCurrent(s: Sched): Sched
  {
    match s.current
    case None => s
    case Some(c) => Next(s.(current := None, blocked := s.blocked[c.id := c.(state := Blocked)]))
  }

  function Woken(s: Sched, id: int): Sched
  {
    if id in s.blocked
    then s.(blocked := s.blocked - {id}, ready := s.ready + [s.blocked[id].(state := Ready)])
    else s
  }

  function WokenAll(s: Sched, ids: seq<int>): Sched
    decreases |ids|
  {
    if ids == [] then s else WokenAll(Woken(s, ids[0]), ids[1..])
  }

  /** The queue without its first task named `id`. */
  function Without(ready: seq<Task>, id: int): seq<Task>
  {
    if ready == [] then [] else if ready[0].id == id then ready[1..] else [ready[0]] + Without(ready[1..], id)
  }

  predicate IsCurrent(s: Sched, id: int) { s.current.Some? && s.current.value.id == id }

  predicate Queued(ready: seq<Task>, id: int)
  {
    exists i :: 0 <= i < |ready| && ready[i].id == id
  }

  function Removed(s: Sched, id: int): Sched
  {
    if IsCurrent(s, id) then s.(current := None)
    else if Queued(s.ready, id) then s.(ready := Without(s.ready, id))
    else s.(blocked := s.blocked - {id})
  }

  /** What belongs to other processes, in order. */
  function Others(ready: seq<Task>, process: int): seq<Task>
  {
    if ready == [] then []
    else (if ready[0].process == process then [] else [ready[0]]) + Others(ready[1..], process)
  }

  function InGroup(blocked: map<int, Task>, process: int): set<int>
  {
    set id | id in blocked && blocked[id].process == process
  }

  function GroupExited(s: Sched, process: int): Sched
  {
    Sched(
      Others(s.ready, process),
      if s.current.Some? && s.current.value.process == process then None else s.current,
      s.blocked - InGroup(s.blocked, process))
  }

  // ----- the partition

  ghost predicate DistinctReady(ready: seq<Task>)
  {
    forall i, j :: 0 <= i < j < |ready| ==> ready[i].id != ready[j].id
  }

  /** Every task is in exactly one place, and its state says which. */
  ghost predicate Partition(s: Sched)
  {
    && DistinctReady(s.ready)
    && (forall i :: 0 <= i < |s.ready| ==> s.ready[i].state == Ready && s.ready[i].id !in s.blocked)
    && (s.current.Some? ==>
         var c := s.current.value; c.state == Running && c.id !in s.blocked && !Queued(s.ready, c.id))
    && (forall id :: id in s.blocked ==> s.blocked[id].id == id && s.blocked[id].state == Blocked)
  }

  ghost predicate Has(s: Sched, id: int)
  {
    IsCurrent(s, id) || Queued(s.ready, id) || id in s.blocked
  }

  function Pairs(ready: seq<Task>): set<(int, int)>
  {
    if ready == [] then {} else {(ready[0].id, ready[0].process)} + Pairs(ready[1..])
  }

  /** All tasks with their processes, wherever they are. */
  function Census(s: Sched): set<(int, int)>
  {
    Pairs(s.ready)
    + (if s.current.Some? then {(s.current.value.id, s.current.value.process)} else {})
    + (set id | id in s.blocked :: (id, s.blocked[id].process))
  }

  datatype Op =
    | Spawn(id: int, process: int)
    | Start
    | EnsureCurrent
    | Yield
    | ExitCurrent
    | Block
    | Wake(id: int)
    | WakeMany(ids: seq<int>)
    | Remove(id: int)
    | ExitGroup(process: int)

  function Step(s: Sched, op: Op): Sched
  {
    match op
    case Spawn(id, process) => Spawned(s, id, process)
    case Start => Next(s)
    case EnsureCurrent => if s.current.Some? then s else Next(s)
    case Yield => Yielded(s)
    case ExitCurrent => s.(current := None)
    case Block => BlockedCurrent(s)
    case Wake(id) => Woken(s, id)
    case WakeMany(ids) => WokenAll(s, ids)
    case Remove(id) => Removed(s, id)
    case ExitGroup(process) => GroupExited(s, process)
  }

  /** Spawned identifiers are fresh, and the scheduler is started only when nothing runs. */
  ghost predicate Legal(s: Sched, op: Op)
  {
    match op
    case Spawn(id, process) => !Has(s, id)
    case Start => s.current.None?
    case _ => true
  }

  // ----- keeping the partition

  lemma QueuedCons(ready: seq<Task>, id: int)
    requires ready != []
    ensures Queued(ready, id) <==> ready[0].id == id || Queued(ready[1..], id)
  {
    assert forall i :: 0 < i < |ready| ==> ready[i] == ready[1..][i - 1];
    if Queued(ready[1..], id) {
      var i :| 0 <= i < |ready[1..]| && ready[1..][i].id == id;
      assert ready[i + 1].id == id;
    }
  }

  lemma NextKeeps(s: Sched)
    requires Partition(s) && s.current.None?
    ensures Partition(Next(s)) && Census(Next(s)) == Census(s)
  {
    if s.ready != [] {
      assert forall i :: 0 < i < |s.ready| ==> s.ready[i] == s.ready[1..][i - 1];
    }
  }

  lemma PushQueued(ready: seq<Task>, task: Task, id: int)
    ensures Queued(ready + [task], id) <==> Queued(ready, id) || task.id == id
  {
    assert (ready + [task])[|ready|] == task;
    if Queued(ready, id) {
      var i :| 0 <= i < |ready| && ready[i].id == id;
      assert (ready + [task])[i].id == id;
    }
  }

  lemma {:induction false} PairsPush(ready: seq<Task>, task: Task)
    ensures Pairs(ready + [task]) == Pairs(ready) + {(task.id, task.process)}
  {
    if ready != [] {
      assert (ready + [task])[1..] == ready[1..] + [task];
      PairsPush(ready[1..], task);
    } else {
      assert (ready + [task])[1..] == [];
    }
  }

  /** A task put at the back of the queue keeps the partition when it is nowhere else. */
  lemma PushKeeps(s: Sched, task: Task)
    requires Partition(s) && !Has(s, task.id) && task.state == Ready
    ensures Partition(s.(ready := s.ready + [task]))
    ensures Census(s.(ready := s.ready + [task])) == Census(s) + {(task.id, task.process)}
  {
    var u := s.(ready := s.ready + [task]);
    forall id
      ensures Queued(u.ready, id) <==> Queued(s.ready, id) || id == task.id
    {
      PushQueued(s.ready, task, id);
    }
    PairsPush(s.ready, task);
  }

  lemma YieldKeeps(s: Sched)
    requires Partition(s)
    ensures Partition(Yielded(s)) && Census(Yielded(s)) == Census(s)
  {
    hide Pairs;
    if s.current.Some? {
      var c := s.current.value.(state := Ready);
      var idle := s.(current := None);
      PushKeeps(idle, c);
      NextKeeps(idle.(ready := s.ready + [c]));
    } else {
      NextKeeps(s);
    }
  }

  lemma BlockKeeps(s: Sched)
    requires Partition(s)
    ensures Partition(BlockedCurrent(s)) && Census(BlockedCurrent(s)) == Census(s)
  {
    hide Pairs;
    if s.current.Some? {
      var c := s.current.value;
      var idle := s.(current := None, blocked := s.blocked[c.id := c.(state := Blocked)]);
      assert forall i :: 0 <= i < |s.ready| ==> s.ready[i].id != c.id;
      assert Partition(idle);
      assert forall id :: id in idle.blocked <==> id in s.blocked || id == c.id;
      assert Census(idle) == Census(s);
      NextKeeps(idle);
    }
  }

  lemma WakeKeeps(s: Sched, id: int)
    requires Partition(s)
    ensures Partition(Woken(s, id)) && Census(Woken(s, id)) == Census(s)
  {
    hide Pairs;
    if id in s.blocked {
      var rest := s.(blocked := s.blocked - {id});
      assert forall i :: 0 <= i < |s.ready| ==> s.ready[i].id != id;
      PushKeeps(rest, s.blocked[id].(state := Ready));
      assert forall k :: k in s.blocked <==> k in rest.blocked || k == id;
      assert Census(s) == Census(rest) + {(id, s.blocked[id].process)};
    }
  }

  lemma {:induction false} WakeManyKeeps(s: Sched, ids: seq<int>)
    requires Partition(s)
    ensures Partition(WokenAll(s, ids)) && Census(WokenAll(s, ids)) == Census(s)
    decreases |ids|
  {
    hide Census, Partition, Woken;
    if ids != [] {
      WakeKeeps(s, ids[0]);
      WakeManyKeeps(Woken(s, ids[0]), ids[1..]);
    }
  }

  lemma {:induction false} WithoutMeaning(ready: seq<Task>, id: int)
    requires DistinctReady(ready)
    ensures DistinctReady(Without(ready, id))
    ensures forall k :: Queued(Without(ready, id), k) <==> Queued(ready, k) && k != id
    ensures forall t :: t in Without(ready, id) ==> t in ready
    ensures Pairs(Without(ready, id)) == set pair | pair in Pairs(ready) && pair.0 != id
  {
    if ready != [] {
      var rest := ready[1..];
      assert ready == [ready[0]] + rest;
      forall k
        ensures Queued(ready, k) <==> ready[0].id == k || Queued(rest, k)
      {
        QueuedCons(ready, k);
      }
      assert !Queued(rest, ready[0].id);
      if ready[0].id == id {
        PairsQueued(rest, id);
      } else {
        WithoutMeaning(rest, id);
        ConsKeeps(ready[0], Without(rest, id));
      }
    }
  }

  lemma ConsKeeps(first: Task, rest: seq<Task>)
    requires DistinctReady(rest) && !Queued(rest, first.id)
    ensures DistinctReady([first] + rest)
    ensures forall k :: Queued([first] + rest, k) <==> first.id == k || Queued(rest, k)
    ensures Pairs([first] + rest) == {(first.id, first.process)} + Pairs(rest)
  {
    var ready := [first] + rest;
    assert ready[1..] == rest;
    forall k
      ensures Queued(ready, k) <==> first.id == k || Queued(rest, k)
    {
      QueuedCons(ready, k);
    }
  }

  lemma {:induction false} PairsQueued(ready: seq<Task>, id: int)
    requires !Queued(ready, id)
    ensures forall pair :: pair in Pairs(ready) ==> pair.0 != id
  {
    if ready != [] {
      QueuedCons(ready, id);
      PairsQueued(ready[1..], id);
    }
  }

  lemma {:induction false} OthersMeaning(ready: seq<Task>, process: int)
    requires DistinctReady(ready)
    ensures DistinctReady(Others(ready, process))
    ensures forall k :: Queued(Others(ready, process), k) ==> Queued(ready, k)
    ensures forall t :: t in Others(ready, process) ==> t in ready
    ensures Pairs(Others(ready, process)) == set pair | pair in Pairs(ready) && pair.1 != process
  {
    if ready != [] {
      var rest := ready[1..];
      assert ready == [ready[0]] + rest;
      forall k
        ensures Queued(ready, k) <==> ready[0].id == k || Queued(rest, k)
      {
        QueuedCons(ready, k);
      }
      OthersMeaning(rest, process);
      if ready[0].process != process {
        ConsKeeps(ready[0], Others(rest, process));
      } else {
        assert Others(ready, process) == Others(rest, process);
      }
    }
  }

  function WithoutId(pairs: set<(int, int)>, id: int): set<(int, int)>
  {
    set pair | pair in pairs && pair.0 != id
  }

  function WithoutProcess(pairs: set<(int, int)>, process: int): set<(int, int)>
  {
    set pair | pair in pairs && pair.1 != process
  }

  lemma RemoveKeeps(s: Sched, id: int)
    requires Partition(s)
    ensures Partition(Removed(s, id)) && Census(Removed(s, id)) == WithoutId(Census(s), id)
    ensures !Has(Removed(s, id), id)
  {
    hide Pairs, Without;
    WithoutMeaning(s.ready, id);
    if !Queued(s.ready, id) {
      PairsQueued(s.ready, id);
    }
    var u := Removed(s, id);
    if !IsCurrent(s, id) && Queued(s.ready, id) {
      assert forall i :: 0 <= i < |u.ready| ==> u.ready[i] in s.ready;
      assert id !in s.blocked;
    }
    assert forall k :: k in u.blocked <==> k in s.blocked && k != id;
    var before := set k | k in s.blocked :: (k, s.blocked[k].process);
    var after := set k | k in u.blocked :: (k, u.blocked[k].process);
    assert after == WithoutId(before, id);
    assert Pairs(u.ready) == WithoutId(Pairs(s.ready), id);
  }

  lemma GroupExitKeeps(s: Sched, process: int)
    requires Partition(s)
    ensures Partition(GroupExited(s, process))
    ensures Census(GroupExited(s, process)) == WithoutProcess(Census(s), process)
  {
    hide Pairs, Others;
    OthersMeaning(s.ready, process);
    var u := GroupExited(s, process);
    assert forall i :: 0 <= i < |u.ready| ==> u.ready[i] in s.ready;
    assert forall id :: id in u.blocked <==> id in s.blocked && s.blocked[id].process != process;
  }

  /** Exactly which tasks each operation adds or drops; every other operation only moves them. */
  function CensusAfter(s: Sched, op: Op): set<(int, int)>
  {
    match op
    case Spawn(id, process) => Census(s) + {(id, process)}
    case ExitCurrent =>
      if s.current.Some? then WithoutId(Census(s), s.current.value.id) else Census(s)
    case Remove(id) => WithoutId(Census(s), id)
    case ExitGroup(process) => WithoutProcess(Census(s), process)
    case _ => Census(s)
  }

  lemma StepKeeps(s: Sched, op: Op)
    requires Partition(s) && Legal(s, op)
    ensures Partition(Step(s, op)) && Census(Step(s, op)) == CensusAfter(s, op)
  {
    match op
    case Spawn(id, process) => PushKeeps(s, Task(id, process, Ready));
    case Start => NextKeeps(s);
    case EnsureCurrent =>
      if s.current.None? {
        NextKeeps(s);
      }
    case Yield => YieldKeeps(s);
    case ExitCurrent =>
      if s.current.Some? {
        RemoveKeeps(s, s.current.value.id);
      }
    case Block => BlockKeeps(s);
    case Wake(id) => WakeKeeps(s, id);
    case WakeMany(ids) => WakeManyKeeps(s, ids);
    case Remove(id) => RemoveKeeps(s, id);
    case ExitGroup(process) => GroupExitKeeps(s, process);
  }

  ghost predicate LegalRun(s: Sched, ops: seq<Op>)
    decreases |ops|
  {
    ops == [] || (Legal(s, ops[0]) && LegalRun(Step(s, ops[0]), ops[1..]))
  }

  function Run(s: Sched, ops: seq<Op>): Sched
    decreases |ops|
  {
    if ops == [] then s else Run(Step(s, ops[0]), ops[1..])
  }

  lemma {:induction false} RunKeepsPartition(s: Sched, ops: seq<Op>)
    requires Partition(s) && LegalRun(s, ops)
    ensures Partition(Run(s, ops))
    decreases |ops|
  {
    if ops != [] {
      StepKeeps(s, ops[0]);
      RunKeepsPartition(Step(s, ops[0]), ops[1..]);
    }
  }

  /** The new scheduler. */
  function Idle(): Sched { Sched([], None, map[]) }

  /** After every legal run from a new scheduler each task is in exactly one of running, ready and blocked. */
  lemma EveryRunPartitions(ops: seq<Op>)
    requires LegalRun(Idle(), ops)
    ensures Partition(Run(Idle(), ops))
  {
    RunKeepsPartition(Idle(), ops);
  }

  /** Starting while a task runs overwrites it: it is lost exactly when another one is ready. */
  lemma StartKeepsIff(s: Sched)
    requires Partition(s)
    ensures Census(Next(s)) == Census(s) <==> s.current.None? || s.ready == []
  {
    if s.current.None? {
      NextKeeps(s);
    } else if s.ready != [] {
      var c := s.current.value;
      assert (c.id, c.process) in Census(s);
      QueuedCons(s.ready, c.id);
      PairsQueued(s.ready[1..], c.id);
      assert (c.id, c.process) !in Census(Next(s));
    }
  }

  /** Two tasks are spawned and the scheduler is started twice: the first task is nowhere any more. */
  lemma StartLosesRunning()
    ensures exists ops: seq<Op> ::
      && LegalRun(Idle(), ops)
      && (1, 1) in Census(Run(Idle(), ops)) && (1, 1) !in Census(Next(Run(Idle(), ops)))
  {
    var a, b := Task(1, 1, Ready), Task(2, 2, Ready);
    var s1, s2 := Sched([a], None, map[]), Sched([a, b], None, map[]);
    var s3 := Sched([b], Some(a.(state := Running)), map[]);
    assert Step(Idle(), Spawn(1, 1)) == s1 && Step(s1, Spawn(2, 2)) == s2 && Step(s2, Start) == s3;
    RunCons(s2, Start, []);
    RunCons(s1, Spawn(2, 2), [Start]);
    RunCons(Idle(), Spawn(1, 1), [Spawn(2, 2), Start]);
    assert (1, 1) in Census(s3) && (1, 1) !in Census(Next(s3));
  }

  lemma RunCons(s: Sched, op: Op, rest: seq<Op>)
    ensures Run(s, [op] + rest) == Run(Step(s, op), rest)
    ensures LegalRun(s, [op] + rest) <==> Legal(s, op) && LegalRun(Step(s, op), rest)
  {
    assert ([op] + rest)[1..] == rest;
  }

  // ----- bounded waiting

  function Position(ready: seq<Task>, id: int): nat
  {
    if ready == [] || ready[0].id == id then 0 else 1 + Position(ready[1..], id)
  }

  /** How many tasks an operation dispatches from the ready queue. */
  function Dispatches(s: Sched, op: Op): nat
  {
    match op
    case Start => if s.ready == [] then 0 else 1
    case EnsureCurrent => if s.current.Some? || s.ready == [] then 0 else 1
    case Yield => if s.current.None? && s.ready == [] then 0 else 1
    case Block => if s.current.None? || s.ready == [] then 0 else 1
    case _ => 0
  }

  /** The operation does not take task `id` out of the scheduler. */
  predicate Spares(s: Sched, op: Op, id: int)
  {
    && (op.Remove? ==> op.id != id)
    && (op.ExitGroup? ==> (id, op.process) !in Pairs(s.ready))
  }

  lemma {:induction false} PositionPush(ready: seq<Task>, task: Task, id: int)
    requires Queued(ready, id)
    ensures Queued(ready + [task], id) && Position(ready + [task], id) == Position(ready, id)
  {
    PushQueued(ready, task, id);
    if ready[0].id != id {
      QueuedCons(ready, id);
      assert (ready + [task])[1..] == ready[1..] + [task];
      PositionPush(ready[1..], task, id);
    }
  }

  lemma NextWaits(s: Sched, id: int)
    requires Queued(s.ready, id)
    ensures IsCurrent(Next(s), id) ||
      (Queued(Next(s).ready, id) && Position(Next(s).ready, id) + 1 == Position(s.ready, id))
  {
    QueuedCons(s.ready, id);
  }

  lemma {:induction false} PositionWithout(ready: seq<Task>, gone: int, id: int)
    requires Queued(ready, id) && gone != id
    ensures Queued(Without(ready, gone), id) && Position(Without(ready, gone), id) <= Position(ready, id)
  {
    QueuedCons(ready, id);
    if ready[0].id != gone {
      assert Without(ready, gone)[1..] == Without(ready[1..], gone);
      QueuedCons(Without(ready, gone), id);
      if ready[0].id != id {
        PositionWithout(ready[1..], gone, id);
      }
    }
  }

  lemma {:induction false} PositionOthers(ready: seq<Task>, process: int, id: int)
    requires Queued(ready, id) && (id, process) !in Pairs(ready)
    ensures Queued(Others(ready, process), id) && Position(Others(ready, process), id) <= Position(ready, id)
  {
    QueuedCons(ready, id);
    if ready[0].process == process {
      assert Others(ready, process) == Others(ready[1..], process);
      PositionOthers(ready[1..], process, id);
    } else {
      assert Others(ready, process)[1..] == Others(ready[1..], process);
      QueuedCons(Others(ready, process), id);
      if ready[0].id != id {
        PositionOthers(ready[1..], process, id);
      }
    }
  }

  lemma {:induction false} WakeManyWaits(s: Sched, ids: seq<int>, id: int)
    requires Queued(s.ready, id)
    ensures Queued(WokenAll(s, ids).ready, id) && Position(WokenAll(s, ids).ready, id) == Position(s.ready, id)
    decreases |ids|
  {
    hide Queued, Position;
    if ids != [] {
      if ids[0] in s.blocked {
        PositionPush(s.ready, s.blocked[ids[0]].(state := Ready), id);
      }
      WakeManyWaits(Woken(s, ids[0]), ids[1..], id);
    }
  }

  /** No operation moves a waiting task back, and every dispatch moves it forward. */
  lemma StepWaits(s: Sched, op: Op, id: int)
    requires Partition(s) && Legal(s, op) && Spares(s, op, id) && Queued(s.ready, id)
    ensures IsCurrent(Step(s, op), id) ||
      (Queued(Step(s, op).ready, id) && Position(Step(s, op).ready, id) + Dispatches(s, op) <= Position(s.ready, id))
  {
    hide Position, Pairs;
    assert s.ready != [];
    match op
    case Spawn(newcomer, process) => PositionPush(s.ready, Task(newcomer, process, Ready), id);
    case Start => NextWaits(s, id);
    case EnsureCurrent => NextWaits(s, id);
    case Yield =>
      if s.current.Some? {
        var c := s.current.value.(state := Ready);
        PositionPush(s.ready, c, id);
        NextWaits(s.(current := None, ready := s.ready + [c]), id);
      } else {
        NextWaits(s, id);
      }
    case ExitCurrent =>
    case Block =>
      if s.current.Some? {
        var c := s.current.value;
        NextWaits(s.(current := None, blocked := s.blocked[c.id := c.(state := Blocked)]), id);
      }
    case Wake(other) =>
      if other in s.blocked {
        PositionPush(s.ready, s.blocked[other].(state := Ready), id);
      }
    case WakeMany(ids) => WakeManyWaits(s, ids, id);
    case Remove(gone) => PositionWithout(s.ready, gone, id);
    case ExitGroup(process) => PositionOthers(s.ready, process, id);
  }

  function Dispatched(s: Sched, ops: seq<Op>): nat
    decreases |ops|
  {
    if ops == [] then 0 else Dispatches(s, ops[0]) + Dispatched(Step(s, ops[0]), ops[1..])
  }

  ghost predicate SparesAll(s: Sched, ops: seq<Op>, id: int)
    decreases |ops|
  {
    ops == [] || (Spares(s, ops[0], id) && SparesAll(Step(s, ops[0]), ops[1..], id))
  }

  /** At some point of the run task `id` is the one running. */
  ghost predicate GetsCpu(s: Sched, ops: seq<Op>, id: int)
    decreases |ops|
  {
    IsCurrent(s, id) || (ops != [] && GetsCpu(Step(s, ops[0]), ops[1..], id))
  }

  /** First in, first out: a task with k tasks before it runs within k + 1 dispatches, whatever else is
      spawned, blocked, woken or removed in between. */
  lemma {:induction false} BoundedWaiting(s: Sched, ops: seq<Op>, id: int)
    requires Partition(s) && LegalRun(s, ops) && SparesAll(s, ops, id)
    requires Queued(s.ready, id) && Dispatched(s, ops) > Position(s.ready, id)
    ensures GetsCpu(s, ops, id)
    decreases |ops|
  {
    hide Partition, Queued, Position, Step, Dispatches, Legal, Spares;
    StepKeeps(s, ops[0]);
    StepWaits(s, ops[0], id);
    if !IsCurrent(Step(s, ops[0]), id) {
      BoundedWaiting(Step(s, ops[0]), ops[1..], id);
    }
  }
}
