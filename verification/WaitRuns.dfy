/** Runs of the scheduler together with its wait queues: when every registered waiter is blocked, and in which order
wake-ups reach the waiters.
 */
module WaitRuns {
  import opened Wrappers
  import opened Ordered
  import opened SchedulerRuns

  datatype World = World(s: Sched, queues: map<int, seq<int>>)

  datatype Event =
    | Plain(op: Op)
    | Create(q: int)
    | BlockOn(q: int)
    | WakeFirst(q: int)
    | WakeQueue(q: int)

  function Registered(queue: seq<int>, id: int): seq<int>
  {
    if id in queue then queue else queue + [id]
  }

  ghost predicate LegalEvent(w: World, e: Event)
  {
    match e
    case Plain(op) => Legal(w.s, op)
    case Create(q) => q !in w.queues
    case BlockOn(q) => q in w.queues
    case WakeFirst(q) => q in w.queues
    case WakeQueue(q) => q in w.queues
  }

  function After(w: World, e: Event): World
  {
    match e
    case Plain(op) => w.(s := Step(w.s, op))
    case Create(q) => w.(queues := w.queues[q := []])
    case BlockOn(q) =>
      if w.s.current.None? || q !in w.queues then w
      else World(BlockedCurrent(w.s), w.queues[q := Registered(w.queues[q], w.s.current.value.id)])
    case WakeFirst(q) =>
      if q !in w.queues || w.queues[q] == [] then w
      else World(Woken(w.s, w.queues[q][0]), w.queues[q := w.queues[q][1..]])
    case WakeQueue(q) =>
      if q !in w.queues then w else World(WokenAll(w.s, w.queues[q]), w.queues[q := []])
  }

  /** Task `id` is registered at place `i` of queue `q`. */
  predicate WaitsAt(queues: map<int, seq<int>>, q: int, i: int, id: int)
  {
    q in queues && 0 <= i < |queues[q]| && queues[q][i] == id
  }

  ghost predicate Waits(queues: map<int, seq<int>>, id: int)
  {
    exists q, i :: WaitsAt(queues, q, i, id)
  }

  /** Every registered waiter is blocked. */
  ghost predicate AllBlocked(w: World)
  {
    forall q, i, id :: WaitsAt(w.queues, q, i, id) ==> id in w.s.blocked
  }

  /** No task is registered twice. */
  ghost predicate Once(queues: map<int, seq<int>>)
  {
    forall q, i, p, j, id :: WaitsAt(queues, q, i, id) && WaitsAt(queues, p, j, id) ==> q == p && i == j
  }

  ghost predicate Tidy(w: World)
  {
    Partition(w.s) && AllBlocked(w) && Once(w.queues)
  }

  /** The event takes no registered waiter out of the blocked tasks other than through its queue. */
  ghost predicate Quiet(w: World, e: Event)
  {
    match e
    case Plain(Wake(id)) => !Waits(w.queues, id)
    case Plain(WakeMany(ids)) => forall i :: 0 <= i < |ids| ==> !Waits(w.queues, ids[i])
    case Plain(Remove(id)) => !Waits(w.queues, id)
    case Plain(ExitGroup(process)) => forall id :: id in InGroup(w.s.blocked, process) ==> !Waits(w.queues, id)
    case _ => true
  }

  // ----- what is blocked after each operation

  lemma {:induction false} WokenAllBlocked(s: Sched, ids: seq<int>)
    ensures WokenAll(s, ids).blocked == s.blocked - Elems(ids)
    decreases |ids|
  {
    if ids != [] {
      WokenAllBlocked(Woken(s, ids[0]), ids[1..]);
      RemoveStep(s.blocked, ids);
      assert Woken(s, ids[0]).blocked == s.blocked - {ids[0]};
    } else {
      RemoveNone(s.blocked);
    }
  }

  /** The blocked tasks an operation releases. */
  function Released(s: Sched, op: Op): set<int>
  {
    match op
    case Wake(id) => {id}
    case WakeMany(ids) => Elems(ids)
    case Remove(id) => {id}
    case ExitGroup(process) => InGroup(s.blocked, process)
    case _ => {}
  }

  lemma BlockedAfter(s: Sched, op: Op, id: int)
    requires Partition(s) && id in s.blocked
    ensures id in Step(s, op).blocked <==> id !in Released(s, op)
  {
    if op.WakeMany? {
      WokenAllBlocked(s, op.ids);
    }
  }

  // ----- the exact condition

  lemma PlainTidyIff(w: World, op: Op)
    requires Tidy(w) && Legal(w.s, op)
    ensures Tidy(After(w, Plain(op))) <==> Quiet(w, Plain(op))
  {
    hide Partition, Step, Legal;
    StepKeeps(w.s, op);
    var u := After(w, Plain(op));
    assert AllBlocked(u) <==> forall q, i, id :: WaitsAt(w.queues, q, i, id) ==> id !in Released(w.s, op) by {
      forall q, i, id | WaitsAt(w.queues, q, i, id)
        ensures id in u.s.blocked <==> id !in Released(w.s, op)
      {
        BlockedAfter(w.s, op, id);
      }
    }
    QuietMeans(w, op);
  }

  lemma QuietMeans(w: World, op: Op)
    ensures Quiet(w, Plain(op)) <==> forall q, i, id :: WaitsAt(w.queues, q, i, id) ==> id !in Released(w.s, op)
  {
    assert Quiet(w, Plain(op)) <==> forall id :: id in Released(w.s, op) ==> !Waits(w.queues, id) by {
      match op
      case Wake(id) =>
      case WakeMany(ids) => assert forall id :: id in Elems(ids) <==> exists i :: 0 <= i < |ids| && ids[i] == id;
      case Remove(id) =>
      case ExitGroup(process) =>
      case _ =>
    }
  }

  lemma CreateKeepsTidy(w: World, q: int)
    requires Tidy(w) && q !in w.queues
    ensures Tidy(After(w, Create(q)))
  {
    hide Partition;
    var u := After(w, Create(q));
    assert forall p, i, id :: WaitsAt(u.queues, p, i, id) ==> WaitsAt(w.queues, p, i, id);
  }

  lemma BlockKeepsTidy(w: World, q: int)
    requires Tidy(w) && q in w.queues
    ensures Tidy(After(w, BlockOn(q)))
  {
    if w.s.current.Some? {
      var id := w.s.current.value.id;
      var u := After(w, BlockOn(q));
      BlockKeeps(w.s);
      NotRegistered(w, id);
      hide Partition;
      BlockedGrows(w.s);
      forall p, i, x | WaitsAt(u.queues, p, i, x)
        ensures WaitsAt(w.queues, p, i, x) || (p == q && i == |w.queues[q]| && x == id)
      {
      }
    }
  }

  lemma NotRegistered(w: World, id: int)
    requires AllBlocked(w) && id !in w.s.blocked
    ensures !Waits(w.queues, id)
    ensures forall q :: q in w.queues ==> id !in w.queues[q]
  {
    forall q | q in w.queues
      ensures id !in w.queues[q]
    {
      assert forall i :: 0 <= i < |w.queues[q]| ==> WaitsAt(w.queues, q, i, w.queues[q][i]);
    }
  }

  lemma BlockedGrows(s: Sched)
    requires s.current.Some?
    ensures s.current.value.id in BlockedCurrent(s).blocked
    ensures forall id :: id in s.blocked ==> id in BlockedCurrent(s).blocked
  {
  }

  lemma WakeFirstKeepsTidy(w: World, q: int)
    requires Tidy(w) && q in w.queues
    ensures Tidy(After(w, WakeFirst(q)))
  {
    if w.queues[q] != [] {
      var id := w.queues[q][0];
      WakeKeeps(w.s, id);
      hide Partition;
      var u := After(w, WakeFirst(q));
      assert WaitsAt(w.queues, q, 0, id);
      forall p, i, x | WaitsAt(u.queues, p, i, x)
        ensures WaitsAt(w.queues, p, if p == q then i + 1 else i, x) && x != id
      {
      }
    }
  }

  lemma WakeQueueKeepsTidy(w: World, q: int)
    requires Tidy(w) && q in w.queues
    ensures Tidy(After(w, WakeQueue(q)))
  {
    var ids := w.queues[q];
    WakeManyKeeps(w.s, ids);
    WokenAllBlocked(w.s, ids);
    hide Partition, WokenAll;
    var u := After(w, WakeQueue(q));
    assert forall i :: 0 <= i < |ids| ==> WaitsAt(w.queues, q, i, ids[i]);
    forall p, i, x | WaitsAt(u.queues, p, i, x)
      ensures WaitsAt(w.queues, p, i, x) && p != q && x !in Elems(ids)
    {
    }
  }

  /** Which events leave a registered waiter that is not blocked: exactly the wake-ups, removals and group exits that
      go past the wait queue of a registered waiter. */
  lemma TidyIff(w: World, e: Event)
    requires Tidy(w) && LegalEvent(w, e)
    ensures Tidy(After(w, e)) <==> Quiet(w, e)
  {
    hide Tidy, After;
    match e
    case Plain(op) => PlainTidyIff(w, op);
    case Create(q) => CreateKeepsTidy(w, q);
    case BlockOn(q) => BlockKeepsTidy(w, q);
    case WakeFirst(q) => WakeFirstKeepsTidy(w, q);
    case WakeQueue(q) => WakeQueueKeepsTidy(w, q);
  }

  function Start(): World { World(Sched([], None, map[]), map[]) }

  lemma StartIsTidy()
    ensures Tidy(Start())
  {
  }

  function Run(w: World, events: seq<Event>): World
    decreases |events|
  {
    if events == [] then w else Run(After(w, events[0]), events[1..])
  }

  ghost predicate LegalRun(w: World, events: seq<Event>)
    decreases |events|
  {
    events == [] || (LegalEvent(w, events[0]) && LegalRun(After(w, events[0]), events[1..]))
  }

  ghost predicate QuietRun(w: World, events: seq<Event>)
    decreases |events|
  {
    events == [] ||
    (LegalEvent(w, events[0]) && Quiet(w, events[0]) && QuietRun(After(w, events[0]), events[1..]))
  }

  lemma {:induction false} RunKeepsTidy(w: World, events: seq<Event>)
    requires Tidy(w) && QuietRun(w, events)
    ensures Tidy(Run(w, events))
    decreases |events|
  {
    if events != [] {
      TidyIff(w, events[0]);
      RunKeepsTidy(After(w, events[0]), events[1..]);
    }
  }

  /** Over every such run from the start, every registered waiter is blocked and registered once. */
  lemma EveryQuietRunTidy(events: seq<Event>)
    requires QuietRun(Start(), events)
    ensures Tidy(Run(Start(), events))
  {
    StartIsTidy();
    RunKeepsTidy(Start(), events);
  }

  // ----- the order of wake-ups

  /** The ready tasks that waking `ids` in turn makes, when all of them are blocked. */
  function Readied(blocked: map<int, Task>, ids: seq<int>): seq<Task>
    requires forall i :: 0 <= i < |ids| ==> ids[i] in blocked
  {
    seq(|ids|, i requires 0 <= i < |ids| => blocked[ids[i]].(state := Ready))
  }

  lemma {:induction false} WokenInOrder(s: Sched, ids: seq<int>)
    requires forall i :: 0 <= i < |ids| ==> ids[i] in s.blocked
    requires forall i, j :: 0 <= i < j < |ids| ==> ids[i] != ids[j]
    ensures WokenAll(s, ids).ready == s.ready + Readied(s.blocked, ids)
    decreases |ids|
  {
    if ids == [] {
      assert Readied(s.blocked, ids) == [];
    } else {
      var u := Woken(s, ids[0]);
      WokenInOrder(u, ids[1..]);
      assert Readied(s.blocked, ids) == [s.blocked[ids[0]].(state := Ready)] + Readied(u.blocked, ids[1..]);
    }
  }

  /** Waking a whole queue makes exactly its waiters ready, the oldest first. */
  lemma WakeQueueInOrder(w: World, q: int)
    requires Tidy(w) && q in w.queues
    ensures forall i :: 0 <= i < |w.queues[q]| ==> w.queues[q][i] in w.s.blocked
    ensures After(w, WakeQueue(q)).s.ready == w.s.ready + Readied(w.s.blocked, w.queues[q])
  {
    var ids := w.queues[q];
    assert forall i :: 0 <= i < |ids| ==> WaitsAt(w.queues, q, i, ids[i]);
    WokenInOrder(w.s, ids);
  }

  /** How many waiters of queue `q` an event wakes. */
  function WakesOn(w: World, e: Event, q: int): nat
  {
    match e
    case WakeFirst(p) => if p == q && q in w.queues && w.queues[q] != [] then 1 else 0
    case WakeQueue(p) => if p == q && q in w.queues then |w.queues[q]| else 0
    case _ => 0
  }

  /** A waiter moves up by one with every wake-up on its queue, stays blocked until its turn, and is then ready. */
  lemma StepServes(w: World, e: Event, q: int, i: nat, id: int)
    requires Tidy(w) && LegalEvent(w, e) && Quiet(w, e) && WaitsAt(w.queues, q, i, id)
    ensures WakesOn(w, e, q) <= i ==> WaitsAt(After(w, e).queues, q, i - WakesOn(w, e, q), id)
    ensures WakesOn(w, e, q) > i ==> Queued(After(w, e).s.ready, id)
  {
    hide Partition;
    match e
    case WakeFirst(p) =>
      if p == q && i == 0 {
        BlockedIds(w.s, id);
        PushQueued(w.s.ready, w.s.blocked[id].(state := Ready), id);
      }
    case WakeQueue(p) =>
      if p == q {
        WakeQueueInOrder(w, q);
        var ready := w.s.ready + Readied(w.s.blocked, w.queues[q]);
        assert ready[|w.s.ready| + i].id == id by {
          BlockedIds(w.s, id);
        }
      }
    case _ =>
  }

  lemma BlockedIds(s: Sched, id: int)
    requires Partition(s) && id in s.blocked
    ensures s.blocked[id].id == id
  {
  }

  function Wakes(w: World, events: seq<Event>, q: int): nat
    decreases |events|
  {
    if events == [] then 0 else WakesOn(w, events[0], q) + Wakes(After(w, events[0]), events[1..], q)
  }

  /** At some point of the run task `id` is ready. */
  ghost predicate GetsReady(w: World, events: seq<Event>, id: int)
    decreases |events|
  {
    Queued(w.s.ready, id) || (events != [] && GetsReady(After(w, events[0]), events[1..], id))
  }

  /** Wake-ups reach waiters in the order in which they registered: the waiter at place `k` still waits, `n` places
      further up, after any run with `n <= k` wake-ups on its queue, and has been made ready after any run with more. */
  lemma {:induction false} ServedInOrder(w: World, events: seq<Event>, q: int, k: nat, id: int)
    requires Tidy(w) && QuietRun(w, events) && WaitsAt(w.queues, q, k, id)
    ensures Wakes(w, events, q) <= k ==> WaitsAt(Run(w, events).queues, q, k - Wakes(w, events, q), id)
    ensures Wakes(w, events, q) > k ==> GetsReady(w, events, id)
    decreases |events|
  {
    hide Tidy, WaitsAt, WakesOn, LegalEvent, Quiet, After, Queued;
    if events != [] {
      StepServes(w, events[0], q, k, id);
      TidyIff(w, events[0]);
      var n := WakesOn(w, events[0], q);
      if n <= k {
        ServedInOrder(After(w, events[0]), events[1..], q, k - n, id);
      }
    }
  }

  // ----- a waiter removed behind the queue's back

  /** Tasks 1 and 2 have blocked on queue 7 in turn. */
  function BothBlocked(): World
  {
    World(Sched([], None, map[1 := Task(1, 1, Blocked), 2 := Task(2, 2, Blocked)]), map[7 := [1, 2]])
  }

  lemma FirstRuns()
    ensures Run(Start(), [Create(7), Plain(Spawn(1, 1)), Plain(Spawn(2, 2)), Plain(Op.Start)])
      == World(Sched([Task(2, 2, Ready)], Some(Task(1, 1, Running)), map[]), map[7 := []])
    ensures LegalRun(Start(), [Create(7), Plain(Spawn(1, 1)), Plain(Spawn(2, 2)), Plain(Op.Start)])
  {
    var a, b := Task(1, 1, Ready), Task(2, 2, Ready);
    var w1 := World(Start().s, map[7 := []]);
    var w2 := World(Sched([a], None, map[]), map[7 := []]);
    var w3 := World(Sched([a, b], None, map[]), map[7 := []]);
    assert After(Start(), Create(7)) == w1;
    assert After(w1, Plain(Spawn(1, 1))) == w2;
    assert After(w2, Plain(Spawn(2, 2))) == w3;
    assert LegalEvent(w1, Plain(Spawn(1, 1))) && LegalEvent(w2, Plain(Spawn(2, 2))) && LegalEvent(w3, Plain(Op.Start));
    RunCons(w3, Plain(Op.Start), []);
    RunCons(w2, Plain(Spawn(2, 2)), [Plain(Op.Start)]);
    RunCons(w1, Plain(Spawn(1, 1)), [Plain(Spawn(2, 2)), Plain(Op.Start)]);
    RunCons(Start(), Create(7), [Plain(Spawn(1, 1)), Plain(Spawn(2, 2)), Plain(Op.Start)]);
  }

  lemma ThenBothBlock(w: World)
    requires w == World(Sched([Task(2, 2, Ready)], Some(Task(1, 1, Running)), map[]), map[7 := []])
    ensures Run(w, [BlockOn(7), BlockOn(7)]) == BothBlocked() && LegalRun(w, [BlockOn(7), BlockOn(7)])
  {
    var u := After(w, BlockOn(7));
    assert u.s.ready == [] && u.s.current == Some(Task(2, 2, Running)) && u.s.blocked == map[1 := Task(1, 1, Blocked)];
    assert Registered([], 1) == [1] && Registered([1], 2) == [1, 2];
    assert u.queues[7] == [1] && u.queues == map[7 := [1]];
    var v := After(u, BlockOn(7));
    assert v.s.ready == [] && v.s.current == None;
    assert v.s.blocked == map[1 := Task(1, 1, Blocked), 2 := Task(2, 2, Blocked)];
    assert v.queues[7] == [1, 2] && v.queues == map[7 := [1, 2]];
    RunCons(u, BlockOn(7), []);
    RunCons(w, BlockOn(7), [BlockOn(7)]);
  }

  lemma {:induction false} RunConcat(w: World, a: seq<Event>, b: seq<Event>)
    ensures Run(w, a + b) == Run(Run(w, a), b)
    ensures LegalRun(w, a + b) <==> LegalRun(w, a) && LegalRun(Run(w, a), b)
    decreases |a|
  {
    if a == [] {
      assert a + b == b;
    } else {
      assert (a + b)[1..] == a[1..] + b;
      RunConcat(After(w, a[0]), a[1..], b);
    }
  }

  /** In world `w` a wake-up on queue `q` makes nobody ready, though the second of its two waiters is blocked. */
  ghost predicate Swallows(w: World, q: int)
  {
    q in w.queues && |w.queues[q]| == 2 && w.queues[q][1] in w.s.blocked && After(w, WakeFirst(q)).s == w.s
  }

  /** Two tasks block on one queue, and the first is removed. */
  lemma StaleWaiterSwallowsWake()
    ensures exists events: seq<Event> :: LegalRun(Start(), events) && Swallows(Run(Start(), events), 7)
  {
    var first := [Create(7), Plain(Spawn(1, 1)), Plain(Spawn(2, 2)), Plain(Op.Start)];
    var next := [BlockOn(7), BlockOn(7)];
    FirstRuns();
    ThenBothBlock(Run(Start(), first));
    RunConcat(Start(), first, next);
    RunConcat(Start(), first + next, [Plain(Remove(1))]);
    RunCons(BothBlocked(), Plain(Remove(1)), []);
    var w := After(BothBlocked(), Plain(Remove(1)));
    assert w.s.blocked == map[2 := Task(2, 2, Blocked)] && w.queues == map[7 := [1, 2]];
    assert Swallows(w, 7);
    assert Swallows(Run(Start(), first + next + [Plain(Remove(1))]), 7);
  }

  lemma RunCons(w: World, e: Event, rest: seq<Event>)
    ensures Run(w, [e] + rest) == Run(After(w, e), rest)
    ensures LegalRun(w, [e] + rest) <==> LegalEvent(w, e) && LegalRun(After(w, e), rest)
  {
    assert ([e] + rest)[1..] == rest;
  }
}
