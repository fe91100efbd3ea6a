/** The futex wait queues of the process table: one FIFO of thread ids per address. */
module FutexQueues {
  import opened Bits
  import opened Ordered
  import opened Sequences

  type Queues = map<int, seq<nat>>

  function QueueAt(q: Queues, addr: int): seq<nat> { if addr in q then q[addr] else [] }

  /** The map with `s` as the queue of `addr`; an empty queue is not stored. */
  function SetQueue(q: Queues, addr: int, s: seq<nat>): Queues
  {
    if s == [] then q - {addr} else q[addr := s]
  }

  /** Thread `t` waits at position `i` of the queue of `a`. */
  predicate WaitsAt(q: Queues, a: int, i: int, t: nat)
  {
    a in q && 0 <= i < |q[a]| && q[a][i] == t
  }

  ghost predicate Waits(q: Queues, a: int, t: nat)
  {
    exists i :: WaitsAt(q, a, i, t)
  }

  ghost predicate Queued(q: Queues, t: nat)
  {
    exists a :: Waits(q, a, t)
  }

  /** No empty queue is stored, and no thread waits in two places. */
  ghost predicate Sound(q: Queues)
  {
    && (forall a :: a in q ==> q[a] != [])
    && (forall a, i, b, j, t :: WaitsAt(q, a, i, t) && WaitsAt(q, b, j, t) ==> a == b && i == j)
  }

  function Without(s: seq<nat>, t: nat): (r: seq<nat>)
    ensures t !in r
    ensures t !in s ==> r == s
    ensures forall x :: x != t ==> (x in r <==> x in s)
  {
    if s == [] then []
    else if s[0] == t then Without(s[1..], t)
    else
      assert s == [s[0]] + s[1..];
      [s[0]] + Without(s[1..], t)
  }

  function Prefix(s: seq<nat>, n: nat): seq<nat> { if n <= |s| then s[..n] else s }

  function Rest(s: seq<nat>, n: nat): seq<nat> { if n <= |s| then s[n..] else [] }

  /** `from` gives up `wake` waiters, then `move` waiters to the end of `to`. */
  function Requeued(q: Queues, from: int, to: int, wake: nat, move: nat): Queues
  {
    var left := Rest(QueueAt(q, from), wake);
    var q' := SetQueue(q, from, Rest(left, move));
    if Prefix(left, move) == [] then q' else q'[to := QueueAt(q', to) + Prefix(left, move)]
  }

  /** Thread `t` has been dropped from every queue but those of `todo`. */
  ghost predicate Purged(q0: Queues, q: Queues, todo: seq<int>, t: nat)
  {
    forall a :: QueueAt(q, a) == (if a in todo then QueueAt(q0, a) else Without(QueueAt(q0, a), t))
  }

  lemma PurgeStep(q0: Queues, q: Queues, todo: seq<int>, t: nat)
    requires Purged(q0, q, todo, t) && todo != [] && Ascending(todo)
    ensures Purged(q0, SetQueue(q, todo[0], Without(QueueAt(q, todo[0]), t)), todo[1..], t)
  {
    hide Without;
    var a0 := todo[0];
    assert todo == [a0] + todo[1..];
  }

  class FutexTable {
    var waiters: Queues

    constructor ()
      ensures waiters == map[]
    {
      waiters := map[];
    }

    method Enqueue(addr: int, tid: nat)
      modifies this
      ensures waiters == Enqueued(old(waiters), addr, tid)
    {
      var queue := QueueAt(waiters, addr);
      if tid !in queue {
        queue := queue + [tid];
      }
      waiters := waiters[addr := queue];
      assert tid in QueueAt(old(waiters), addr) ==> waiters == old(waiters);
    }

    method Wake(addr: int, count: nat) returns (woke: seq<nat>)
      modifies this
      ensures woke == Prefix(QueueAt(old(waiters), addr), count)
      ensures waiters == SetQueue(old(waiters), addr, Rest(QueueAt(old(waiters), addr), count))
    {
      woke := [];
      if addr in waiters {
        var queue := waiters[addr];
        woke, queue := PopFront(queue, count);
        waiters := waiters[addr := queue];
        if queue == [] {
          waiters := waiters - {addr};
        }
      }
      assert waiters == SetQueue(old(waiters), addr, Rest(QueueAt(old(waiters), addr), count));
    }

    /** The loop `for _ in 0..count { pop_front }`, which both waking and requeueing run. */
    static method PopFront(queue: seq<nat>, count: nat) returns (popped: seq<nat>, rest: seq<nat>)
      ensures popped == Prefix(queue, count) && rest == Rest(queue, count)
    {
      popped, rest := [], queue;
      var i := 0;
      while i < count
        invariant i <= count
        invariant popped == Prefix(queue, i) && rest == Rest(queue, i)
      {
        if rest == [] {
          return;
        }
        popped, rest := popped + [rest[0]], rest[1..];
        i := i + 1;
      }
    }

    method RemoveAt(addr: int, tid: nat)
      modifies this
      ensures waiters == SetQueue(old(waiters), addr, Without(QueueAt(old(waiters), addr), tid))
    {
      if addr in waiters {
        var queue := Without(waiters[addr], tid);
        waiters := waiters[addr := queue];
        if queue == [] {
          waiters := waiters - {addr};
        }
      }
      assert waiters == SetQueue(old(waiters), addr, Without(QueueAt(old(waiters), addr), tid));
    }

    method Requeue(from: int, to: int, wake: nat, move: nat) returns (woke: seq<nat>)
      modifies this
      ensures woke == Prefix(QueueAt(old(waiters), from), wake)
      ensures waiters == Requeued(old(waiters), from, to, wake, move)
    {
      ghost var left := Rest(QueueAt(waiters, from), wake);
      woke := Wake(from, wake);
      assert QueueAt(waiters, from) == left;
      var moved: seq<nat> := [];
      ghost var q := waiters;
      if from in waiters {
        var queue;
        moved, queue := PopFront(waiters[from], move);
        waiters := waiters[from := queue];
        if queue == [] {
          waiters := waiters - {from};
        }
      }
      assert moved == Prefix(left, move);
      assert waiters == SetQueue(q, from, Rest(left, move));
      assert waiters == SetQueue(old(waiters), from, Rest(left, move));
      if moved != [] {
        waiters := waiters[to := QueueAt(waiters, to) + moved];
      }
    }

    /** `remove_futex_waiter`: drop the thread from every queue. */
    method RemoveWaiter(tid: nat)
      modifies this
      ensures waiters == Removed(old(waiters), tid)
    {
      hide Purged, Without, Sorted;
      var todo := Sorted(waiters.Keys);
      PurgeStart(waiters, todo, tid);
      while todo != []
        invariant Ascending(todo) && forall a :: a in waiters ==> waiters[a] != [] || a in todo
        invariant Purged(old(waiters), waiters, todo, tid)
        decreases |todo|
      {
        PurgeStep(old(waiters), waiters, todo, tid);
        RemoveAt(todo[0], tid);
        todo := todo[1..];
      }
      PurgeDone(old(waiters), waiters, tid);
    }
  }

  lemma PurgeStart(q: Queues, todo: seq<int>, t: nat)
    requires forall a :: a in q ==> a in todo
    ensures Purged(q, q, todo, t)
  {
  }

  lemma PurgeDone(q0: Queues, q: Queues, t: nat)
    requires Purged(q0, q, [], t) && forall a :: a in q ==> q[a] != []
    ensures q == Removed(q0, t)
  {
    var r := Removed(q0, t);
    forall a ensures a in q <==> a in r {
      assert QueueAt(q, a) == Without(QueueAt(q0, a), t);
    }
    forall a | a in q ensures q[a] == r[a] {
      assert QueueAt(q, a) == Without(QueueAt(q0, a), t);
    }
  }

  /** The queues with thread `t` dropped from each. */
  function Removed(q: Queues, t: nat): Queues
  {
    map a | a in q && Without(q[a], t) != [] :: Without(q[a], t)
  }

  // ----- what every operation keeps

  /** Queueing a thread keeps the queues sound exactly when it waits nowhere else. */
  lemma EnqueueKeeps(q: Queues, addr: int, t: nat)
    requires Sound(q)
    ensures Sound(Enqueued(q, addr, t)) <==> forall a :: a != addr ==> !Waits(q, a, t)
  {
    var q', s := Enqueued(q, addr, t), QueueAt(q, addr);
    if a :| a != addr && Waits(q, a, t) {
      var i :| WaitsAt(q, a, i, t);
      assert WaitsAt(q', a, i, t);
      var j :| 0 <= j < |q'[addr]| && q'[addr][j] == t;
      assert WaitsAt(q', addr, j, t);
    } else if t !in s {
      forall a, i, b, j, x | WaitsAt(q', a, i, x) && WaitsAt(q', b, j, x) ensures a == b && i == j {
        EnqueuedOrigin(q, addr, t, a, i, x);
        EnqueuedOrigin(q, addr, t, b, j, x);
      }
    }
  }

  /** Thread 5, waiting at address 1, also starts to wait at address 2: it is in two queues. */
  lemma EnqueueDoubles()
    ensures exists q: Queues :: Sound(q) && !Sound(Enqueued(q, 2, 5))
  {
    var q: Queues := map[1 := [5]];
    assert WaitsAt(q, 1, 0, 5);
    assert Waits(q, 1, 5);
    EnqueueKeeps(q, 2, 5);
  }

  function Enqueued(q: Queues, addr: int, t: nat): Queues
  {
    if t in QueueAt(q, addr) then q else q[addr := QueueAt(q, addr) + [t]]
  }

  lemma EnqueuedOrigin(q: Queues, addr: int, t: nat, a: int, i: int, x: nat)
    requires t !in QueueAt(q, addr) && WaitsAt(Enqueued(q, addr, t), a, i, x)
    requires forall b :: b != addr ==> !Waits(q, b, t)
    ensures (x == t && a == addr && i == |QueueAt(q, addr)|) || (x != t && WaitsAt(q, a, i, x))
  {
    if a != addr || i < |QueueAt(q, addr)| {
      assert WaitsAt(q, a, i, x);
      if x == t && a != addr {
        assert Waits(q, a, t);
      }
    }
  }

  /** Replacing one queue by part of itself keeps the queues sound. */
  lemma ShrinkKeeps(q: Queues, addr: int, s: seq<nat>)
    requires Sound(q) && forall i :: 0 <= i < |s| ==> s[i] in QueueAt(q, addr)
    requires forall i, j :: 0 <= i < j < |s| ==> s[i] != s[j]
    ensures Sound(SetQueue(q, addr, s))
  {
    var q' := SetQueue(q, addr, s);
    forall a, i, b, j, t | WaitsAt(q', a, i, t) && WaitsAt(q', b, j, t) ensures a == b && i == j {
      var i' := if a == addr then IndexIn(QueueAt(q, addr), t) else i;
      var j' := if b == addr then IndexIn(QueueAt(q, addr), t) else j;
      assert WaitsAt(q, a, i', t) && WaitsAt(q, b, j', t);
    }
  }

  ghost function IndexIn(s: seq<nat>, t: nat): (i: int)
    requires t in s
    ensures 0 <= i < |s| && s[i] == t
  {
    var i :| 0 <= i < |s| && s[i] == t;
    i
  }

  // ----- waking and requeueing

  lemma QueueNoDup(q: Queues, a: int)
    requires Sound(q)
    ensures NoDup(QueueAt(q, a))
  {
    var s := QueueAt(q, a);
    forall i, j | 0 <= i < j < |s| ensures s[i] != s[j] {
      assert WaitsAt(q, a, i, s[i]) && WaitsAt(q, a, j, s[j]);
    }
  }

  /** In sound queues, membership says where a thread waits. */
  lemma OneAddress(q: Queues, a: int, b: int, t: nat)
    requires Sound(q) && t in QueueAt(q, a) && t in QueueAt(q, b)
    ensures a == b
  {
    var i, j := IndexIn(q[a], t), IndexIn(q[b], t);
    assert WaitsAt(q, a, i, t) && WaitsAt(q, b, j, t);
  }

  /** Soundness in terms of queues: each without repetition, no thread in two. */
  lemma SoundFromQueues(q: Queues)
    requires forall a :: a in q ==> q[a] != [] && NoDup(q[a])
    requires forall a, b, t :: a in q && b in q && t in q[a] && t in q[b] ==> a == b
    ensures Sound(q)
  {
    forall a, i, b, j, t | WaitsAt(q, a, i, t) && WaitsAt(q, b, j, t) ensures a == b && i == j {
      assert t in q[a] && t in q[b];
    }
  }

  /** The queue of `from` as `Requeued` cuts it: the woken, the moved, the left. */
  lemma Cut(s: seq<nat>, wake: nat, move: nat)
    ensures var left := Rest(s, wake);
      s == Prefix(s, wake) + Prefix(left, move) + Rest(left, move)
  {
  }

  /** What each queue holds after a requeue. */
  lemma RequeuedQueues(q: Queues, from: int, to: int, wake: nat, move: nat, a: int)
    requires Sound(q)
    ensures
      var left := Rest(QueueAt(q, from), wake);
      var moved, rest := Prefix(left, move), Rest(left, move);
      QueueAt(Requeued(q, from, to, wake, move), a) ==
        (if a == to then (if from == to then rest else QueueAt(q, to)) + moved
         else if a == from then rest
         else QueueAt(q, a))
  {
  }

  /** A requeue wakes the oldest waiters, moves the next oldest to the end of the other queue in
      order, and touches nobody else: every other waiter stays where it was, nobody is lost or
      doubled. This covers `from == to`, where the moved go to the back of the same queue. */
  lemma RequeueConserves(q: Queues, from: int, to: int, wake: nat, move: nat)
    requires Sound(q)
    ensures Sound(Requeued(q, from, to, wake, move))
    ensures forall t, a ::
      t in QueueAt(Requeued(q, from, to, wake, move), a) <==>
        (var s := QueueAt(q, from);
         var left := Rest(s, wake);
         if t in Prefix(s, wake) then false
         else if t in Prefix(left, move) then a == to
         else t in QueueAt(q, a))
  {
    var s := QueueAt(q, from);
    var left := Rest(s, wake);
    var woke, moved, rest := Prefix(s, wake), Prefix(left, move), Rest(left, move);
    var q' := Requeued(q, from, to, wake, move);
    QueueNoDup(q, from);
    Cut(s, wake, move);
    hide Requeued, Prefix, Rest;
    forall t, a
      ensures t in QueueAt(q', a) <==>
        (if t in woke then false else if t in moved then a == to else t in QueueAt(q, a))
    {
      RequeuedWhere(q, from, to, wake, move, t, a);
    }
    forall a | a in q' ensures q'[a] != [] && NoDup(q'[a]) {
      RequeuedNoDup(q, from, to, wake, move, a);
    }
    forall a, b, t | a in q' && b in q' && t in q'[a] && t in q'[b] ensures a == b {
      assert t in QueueAt(q', a) && t in QueueAt(q', b);
      if t !in moved {
        OneAddress(q, a, b, t);
      }
    }
    SoundFromQueues(q');
  }

  lemma RequeuedWhere(q: Queues, from: int, to: int, wake: nat, move: nat, t: nat, a: int)
    requires Sound(q)
    ensures
      var s := QueueAt(q, from);
      var left := Rest(s, wake);
      t in QueueAt(Requeued(q, from, to, wake, move), a) <==>
        (if t in Prefix(s, wake) then false else if t in Prefix(left, move) then a == to else t in QueueAt(q, a))
  {
    var s := QueueAt(q, from);
    var left := Rest(s, wake);
    var woke, moved, rest := Prefix(s, wake), Prefix(left, move), Rest(left, move);
    RequeuedQueues(q, from, to, wake, move, a);
    Cut(s, wake, move);
    QueueNoDup(q, from);
    CutMembers(woke, moved, rest, t);
    if t in s && t in QueueAt(q, a) {
      OneAddress(q, from, a, t);
    }
    hide Requeued, Prefix, Rest, QueueAt, Sound;
    assert t in s <==> t in woke || t in moved || t in rest;
  }

  predicate Disjoint(x: seq<nat>, y: seq<nat>)
  {
    forall i, j :: 0 <= i < |x| && 0 <= j < |y| ==> x[i] != y[j]
  }

  lemma NoDupSplit(x: seq<nat>, y: seq<nat>)
    ensures NoDup(x + y) <==> NoDup(x) && NoDup(y) && Disjoint(x, y)
  {
    var s := x + y;
    if NoDup(s) {
      forall i, j | 0 <= i < j < |x| ensures x[i] != x[j] { assert s[i] == x[i] && s[j] == x[j]; }
      forall i, j | 0 <= i < j < |y| ensures y[i] != y[j] { assert s[|x| + i] == y[i] && s[|x| + j] == y[j]; }
      forall i, j | 0 <= i < |x| && 0 <= j < |y| ensures x[i] != y[j] { assert s[i] == x[i] && s[|x| + j] == y[j]; }
    }
  }

  lemma CutMembers(x: seq<nat>, y: seq<nat>, z: seq<nat>, t: nat)
    requires NoDup(x + y + z)
    ensures t in x + y + z <==> t in x || t in y || t in z
    ensures !(t in x && t in y) && !(t in x && t in z) && !(t in y && t in z)
  {
    NoDupSplit(x + y, z);
    NoDupSplit(x, y);
    assert forall i :: 0 <= i < |x| ==> x[i] == (x + y)[i];
    assert forall i :: 0 <= i < |y| ==> y[i] == (x + y)[|x| + i];
  }

  lemma RequeuedNoDup(q: Queues, from: int, to: int, wake: nat, move: nat, a: int)
    requires Sound(q) && a in Requeued(q, from, to, wake, move)
    ensures var q' := Requeued(q, from, to, wake, move); q'[a] != [] && NoDup(q'[a])
  {
    var s := QueueAt(q, from);
    var left := Rest(s, wake);
    var woke, moved, rest := Prefix(s, wake), Prefix(left, move), Rest(left, move);
    var q' := Requeued(q, from, to, wake, move);
    RequeuedQueues(q, from, to, wake, move, a);
    assert q'[a] == QueueAt(q', a);
    Cut(s, wake, move);
    QueueNoDup(q, from);
    QueueNoDup(q, a);
    NoDupSplit(woke + moved, rest);
    NoDupSplit(woke, moved);
    if a == to {
      var head := if from == to then rest else QueueAt(q, to);
      HeadApart(q, from, to, woke, moved, rest);
      NoDupSplit(head, moved);
    }
  }

  lemma HeadApart(q: Queues, from: int, to: int, woke: seq<nat>, moved: seq<nat>, rest: seq<nat>)
    requires Sound(q) && QueueAt(q, from) == woke + moved + rest
    ensures Disjoint(if from == to then rest else QueueAt(q, to), moved)
  {
    var s := QueueAt(q, from);
    QueueNoDup(q, from);
    NoDupSplit(woke + moved, rest);
    assert forall j :: 0 <= j < |moved| ==> moved[j] == s[|woke| + j] && moved[j] == (woke + moved)[|woke| + j];
    if from != to {
      var h := QueueAt(q, to);
      forall i, j | 0 <= i < |h| && 0 <= j < |moved| ensures h[i] != moved[j] {
        assert WaitsAt(q, to, i, h[i]) && WaitsAt(q, from, |woke| + j, moved[j]);
      }
    }
  }

  /** Two threads waiting together stay in the order in which they came, unless a requeue of a queue
      onto itself moves the earlier one to the back and leaves the later one. */
  lemma RequeueOrder(q: Queues, from: int, to: int, wake: nat, move: nat, a: int, b: int, i: nat, j: nat, i': nat,
                     j': nat)
    requires Sound(q) && 0 <= i < j < |QueueAt(q, a)|
    requires var q' := Requeued(q, from, to, wake, move);
      && i' < |QueueAt(q', b)| && QueueAt(q', b)[i'] == QueueAt(q, a)[i]
      && j' < |QueueAt(q', b)| && QueueAt(q', b)[j'] == QueueAt(q, a)[j]
    ensures i' < j' <==> !(a == from == to && i < wake + move <= j)
  {
    var s := QueueAt(q, from);
    var left := Rest(s, wake);
    var woke, moved, rest := Prefix(s, wake), Prefix(left, move), Rest(left, move);
    var t, u := QueueAt(q, a)[i], QueueAt(q, a)[j];
    var h := QueueAt(Requeued(q, from, to, wake, move), b);
    RequeuedQueues(q, from, to, wake, move, b);
    Cut(s, wake, move);
    PrefixLengths(s, wake, move);
    assert WaitsAt(q, a, i, t) && WaitsAt(q, a, j, u);
    hide Requeued, Prefix, Rest, QueueAt, WaitsAt;
    WhereFrom(q, from, to, woke, moved, rest, h, b, i', t);
    WhereFrom(q, from, to, woke, moved, rest, h, b, j', u);
  }

  lemma PrefixLengths(s: seq<nat>, wake: nat, move: nat)
    ensures var left := Rest(s, wake);
      && |Prefix(s, wake)| == Min(wake, |s|)
      && |Prefix(left, move)| == Min(move, |s| - Min(wake, |s|))
      && |Prefix(s, wake)| + |Prefix(left, move)| + |Rest(left, move)| == |s|
  {
  }

  /** Requeueing one waiter of three onto their own queue puts it behind the others. */
  lemma RequeueReorders()
    ensures QueueAt(Requeued(map[7 := [1, 2, 3]], 7, 7, 0, 1), 7) == [2, 3, 1]
  {
  }

  /** The place in the old queues of position `k` of queue `b` after a requeue. */
  lemma WhereFrom(q: Queues, from: int, to: int, woke: seq<nat>, moved: seq<nat>, rest: seq<nat>, h: seq<nat>,
                  b: int, k: nat, t: nat)
    requires QueueAt(q, from) == woke + moved + rest && k < |h| && h[k] == t
    requires h == (if b == to then (if from == to then rest else QueueAt(q, to)) + moved
                   else if b == from then rest else QueueAt(q, b))
    ensures
      var head := if from == to then rest else QueueAt(q, to);
      if b == to && k >= |head| then WaitsAt(q, from, |woke| + (k - |head|), t)
      else if b == from then WaitsAt(q, from, |woke| + |moved| + k, t)
      else WaitsAt(q, b, k, t)
  {
  }

  // ----- first come, first served

  /** Thread `t` waits ahead of thread `u` at address `a`. */
  ghost predicate Ahead(q: Queues, a: int, t: nat, u: nat)
  {
    exists i, j :: i < j && WaitsAt(q, a, i, t) && WaitsAt(q, a, j, u)
  }

  /** A thread that starts to wait is behind everyone who waits there, and keeps its place when it starts again. */
  lemma EnqueueIsLast(q: Queues, addr: int, t: nat)
    ensures forall a, i, x :: WaitsAt(q, a, i, x) ==> WaitsAt(Enqueued(q, addr, t), a, i, x)
    ensures t !in QueueAt(q, addr) ==> forall x :: x in QueueAt(q, addr) ==> Ahead(Enqueued(q, addr, t), addr, x, t)
    ensures forall a, x :: x in QueueAt(Enqueued(q, addr, t), a) <==> x in QueueAt(q, a) || (a == addr && x == t)
  {
    var q' := Enqueued(q, addr, t);
    if t !in QueueAt(q, addr) {
      forall x | x in QueueAt(q, addr)
        ensures Ahead(q', addr, x, t)
      {
        var i := IndexIn(QueueAt(q, addr), x);
        assert WaitsAt(q', addr, i, x) && WaitsAt(q', addr, |QueueAt(q, addr)|, t);
      }
    }
  }

  /** The threads an operation wakes, in the order in which it returns them. */
  function Woke(q: Queues, op: Op): seq<nat>
  {
    match op
    case WakeOp(a, n) => Prefix(QueueAt(q, a), n)
    case RequeueOp(from, to, w, m) => Prefix(QueueAt(q, from), w)
    case _ => []
  }

  /** Of two threads that wait at one address, no operation wakes the later and leaves the earlier there. */
  lemma WokeInOrder(q: Queues, op: Op, a: int, i: nat, j: nat)
    requires Sound(q) && i < j < |QueueAt(q, a)| && QueueAt(q, a)[j] in Woke(q, op)
    ensures i < |Woke(q, op)| && Woke(q, op)[i] == QueueAt(q, a)[i]
    ensures j < |Woke(q, op)| && Woke(q, op)[j] == QueueAt(q, a)[j]
  {
    var b := if op.WakeOp? then op.addr else op.src;
    var u := QueueAt(q, a)[j];
    var k := IndexIn(Woke(q, op), u);
    assert WaitsAt(q, a, j, u) && WaitsAt(q, b, k, u);
  }

  /** Either the earlier of two elements is the first, or both stand in the rest. */
  lemma HeadOrder(s: seq<nat>, w: seq<nat>, v: seq<nat>, dropped: bool, i: nat, j: nat, i': nat, j': nat)
    requires NoDup(s) && NoDup(w) && i < j < |s| && i' < |w| && w[i'] == s[i] && j' < |w| && w[j'] == s[j]
    requires (if dropped then w == v && i > 0 else w == [s[0]] + v)
    ensures NoDup(s[1..])
    ensures i == 0 ==> i' < j'
    ensures i > 0 ==>
      var d := if dropped then 0 else 1;
      && d <= i' && i' - d < |v| && v[i' - d] == s[1..][i - 1]
      && d <= j' && j' - d < |v| && v[j' - d] == s[1..][j - 1]
  {
    assert s[j] != s[0];
    if !dropped {
      assert w[0] == s[0];
    }
  }

  lemma WithoutStep(s: seq<nat>, t: nat)
    requires s != []
    ensures Without(s, t) == if s[0] == t then Without(s[1..], t) else [s[0]] + Without(s[1..], t)
  {
  }

  lemma {:induction false} WithoutOrder(s: seq<nat>, t: nat, i: nat, j: nat, i': nat, j': nat)
    requires NoDup(s) && i < j < |s|
    requires i' < |Without(s, t)| && Without(s, t)[i'] == s[i] && j' < |Without(s, t)| && Without(s, t)[j'] == s[j]
    ensures i' < j'
    decreases |s|
  {
    WithoutNoDup(s, t);
    WithoutStep(s, t);
    WithoutMisses(s, t, i');
    hide Without, NoDup;
    var dropped := s[0] == t;
    HeadOrder(s, Without(s, t), Without(s[1..], t), dropped, i, j, i', j');
    if i > 0 {
      var d := if dropped then 0 else 1;
      WithoutOrder(s[1..], t, i - 1, j - 1, i' - d, j' - d);
    }
  }

  lemma WithoutMisses(s: seq<nat>, t: nat, i: nat)
    requires i < |Without(s, t)|
    ensures Without(s, t)[i] != t
  {
    assert Without(s, t)[i] in Without(s, t);
  }

  /** Every operation but a requeue of a queue onto itself keeps the order of threads that go on waiting together. */
  lemma StepKeepsOrder(q: Queues, op: Op, a: int, t: nat, u: nat, b: int)
    requires Sound(q) && Legal(q, op) && Ahead(q, a, t, u) && !(op.RequeueOp? && op.src == op.dst)
    requires Waits(Apply(q, op), b, t) && Waits(Apply(q, op), b, u)
    ensures Ahead(Apply(q, op), b, t, u)
  {
    var q' := Apply(q, op);
    var i, j :| i < j && WaitsAt(q, a, i, t) && WaitsAt(q, a, j, u);
    var i' :| WaitsAt(q', b, i', t);
    var j' :| WaitsAt(q', b, j', u);
    QueueNoDup(q, a);
    match op {
      case EnqueueOp(addr, x) =>
        EnqueueIsLast(q, addr, x);
        ApplyKeeps(q, op);
        assert WaitsAt(q', a, i, t) && WaitsAt(q', a, j, u);
      case RequeueOp(from, to, w, m) =>
        RequeueOrder(q, from, to, w, m, a, b, i, j, i', j');
      case WakeOp(addr, n) =>
        WakeOrder(q, addr, n, a, i, j, t, u, b, i', j');
      case RemoveAtOp(addr, x) =>
        DropOrder(q, q', x, a, i, j, t, u, b, i', j');
      case RemoveOp(x) =>
        DropOrder(q, q', x, a, i, j, t, u, b, i', j');
    }
  }

  lemma WakeOrder(q: Queues, addr: int, n: nat, a: int, i: int, j: int, t: nat, u: nat, b: int, i': int, j': int)
    requires Sound(q) && i < j && WaitsAt(q, a, i, t) && WaitsAt(q, a, j, u)
    requires var q' := SetQueue(q, addr, Rest(QueueAt(q, addr), n)); WaitsAt(q', b, i', t) && WaitsAt(q', b, j', u)
    ensures i' < j'
  {
    var d := if b == addr then n else 0;
    assert WaitsAt(q, b, i' + d, t) && WaitsAt(q, b, j' + d, u);
  }

  /** Dropping one thread from some of the queues. */
  lemma DropOrder(q: Queues, q': Queues, x: nat, a: int, i: int, j: int, t: nat, u: nat, b: int, i': int, j': int)
    requires Sound(q) && i < j && WaitsAt(q, a, i, t) && WaitsAt(q, a, j, u)
    requires WaitsAt(q', b, i', t) && WaitsAt(q', b, j', u)
    requires QueueAt(q', b) == QueueAt(q, b) || QueueAt(q', b) == Without(QueueAt(q, b), x)
    ensures i' < j'
  {
    hide Without;
    QueueNoDup(q, b);
    assert t in QueueAt(q', b);
    assert t in QueueAt(q, b);
    OneAddress(q, a, b, t);
    if QueueAt(q', b) == QueueAt(q, b) {
      assert WaitsAt(q, b, i', t) && WaitsAt(q, b, j', u);
    } else {
      WithoutOrder(QueueAt(q, b), x, i, j, i', j');
    }
  }

  // ----- runs

  datatype Op =
    | EnqueueOp(addr: int, tid: nat)
    | WakeOp(addr: int, count: nat)
    | RequeueOp(src: int, dst: int, wake: nat, move: nat)
    | RemoveAtOp(addr: int, tid: nat)
    | RemoveOp(tid: nat)

  function Apply(q: Queues, op: Op): Queues
  {
    match op
    case EnqueueOp(a, t) => Enqueued(q, a, t)
    case WakeOp(a, n) => SetQueue(q, a, Rest(QueueAt(q, a), n))
    case RequeueOp(from, to, w, m) => Requeued(q, from, to, w, m)
    case RemoveAtOp(a, t) => SetQueue(q, a, Without(QueueAt(q, a), t))
    case RemoveOp(t) => Removed(q, t)
  }

  /** A thread that starts to wait does not wait elsewhere. */
  ghost predicate Legal(q: Queues, op: Op)
  {
    op.EnqueueOp? ==> forall a :: a != op.addr ==> !Waits(q, a, op.tid)
  }

  function Run(ops: seq<Op>): Queues
  {
    if ops == [] then map[] else Apply(Run(ops[..|ops| - 1]), ops[|ops| - 1])
  }

  ghost predicate LegalRun(ops: seq<Op>)
  {
    ops != [] ==> LegalRun(ops[..|ops| - 1]) && Legal(Run(ops[..|ops| - 1]), ops[|ops| - 1])
  }

  lemma {:induction false} WithoutNoDup(s: seq<nat>, t: nat)
    requires NoDup(s)
    ensures NoDup(Without(s, t))
  {
    if s != [] {
      assert forall i :: 0 <= i < |s[1..]| ==> s[1..][i] == s[i + 1];
      WithoutNoDup(s[1..], t);
      if s[0] != t {
        var r := Without(s[1..], t);
        forall i | 0 <= i < |r| ensures r[i] != s[0] {
          assert r[i] in s[1..];
        }
      }
    }
  }

  lemma ApplyKeeps(q: Queues, op: Op)
    requires Sound(q) && Legal(q, op)
    ensures Sound(Apply(q, op))
  {
    match op {
      case EnqueueOp(a, t) => EnqueueKeeps(q, a, t);
      case WakeOp(a, n) =>
        QueueNoDup(q, a);
        ShrinkKeeps(q, a, Rest(QueueAt(q, a), n));
      case RequeueOp(from, to, w, m) => RequeueConserves(q, from, to, w, m);
      case RemoveAtOp(a, t) =>
        QueueNoDup(q, a);
        WithoutNoDup(QueueAt(q, a), t);
        ShrinkKeeps(q, a, Without(QueueAt(q, a), t));
      case RemoveOp(t) => RemovedKeeps(q, t);
    }
  }

  lemma RemovedKeeps(q: Queues, t: nat)
    requires Sound(q)
    ensures Sound(Removed(q, t))
    ensures forall a, u :: u in QueueAt(Removed(q, t), a) <==> u != t && u in QueueAt(q, a)
  {
    var r := Removed(q, t);
    forall a | a in r ensures r[a] != [] && NoDup(r[a]) {
      QueueNoDup(q, a);
      WithoutNoDup(q[a], t);
    }
    forall a, b, u | a in r && b in r && u in r[a] && u in r[b] ensures a == b {
      OneAddress(q, a, b, u);
    }
    SoundFromQueues(r);
    forall a, u ensures u in QueueAt(r, a) <==> u != t && u in QueueAt(q, a) {
      if a in q {
        assert u in Without(q[a], t) <==> u != t && u in q[a];
      }
    }
  }

  /** In every run each thread waits in at most one place and no empty queue is kept. */
  lemma {:induction false} EveryRunSound(ops: seq<Op>)
    requires LegalRun(ops)
    ensures Sound(Run(ops))
  {
    if ops != [] {
      EveryRunSound(ops[..|ops| - 1]);
      ApplyKeeps(Run(ops[..|ops| - 1]), ops[|ops| - 1]);
    }
  }
}
