/** Runs of the process table: every legal run keeps the forest, killing a subtree leaves nothing of it live,
and two inputs on which what one might expect fails.
 */
module ProcessRuns {
  import opened Wrappers
  import opened Ordered
  import opened ProcessForest

  /** `Refused` is a fork or clone that fails after taking its identifier. */
  datatype Op =
    | Spawn(parent: Option<int>)
    | Fork(tid: int)
    | Clone(tid: int)
    | Exec(tid: int)
    | ExitThread(tid: int, code: int)
    | ExitGroup(tid: int, code: int)
    | Wait(waiter: int, sel: Selector)
    | Refused
    | ForceExit(group: int, code: int)
    | KillSubtree(root: int, code: int)

  /** Threads act only while they live. */
  predicate Acts(t: Table, op: Op)
  {
    (op.Fork? || op.Clone? || op.Exec? || op.ExitThread? || op.ExitGroup?) ==> op.tid in t.procs && t.procs[op.tid].live
  }

  /** The first process alone is spawned without a parent; any other spawn names a group in the table. */
  ghost predicate Legal(t: Table, op: Op)
  {
    Acts(t, op) && (op.Spawn? ==> match op.parent case None => t.procs == map[] case Some(p) => Present(t, p))
  }

  ghost function Step(t: Table, op: Op): Table
    requires Acts(t, op)
  {
    match op
    case Spawn(parent) => Spawned(t, parent)
    case Fork(tid) => Forked(t, tid)
    case Clone(tid) => Cloned(t, tid)
    case Exec(tid) => Execed(t, tid)
    case ExitThread(tid, code) => ThreadEnded(t, tid, code)
    case ExitGroup(tid, code) => GroupsEnded(t, {t.procs[tid].tgid}, code)
    case Wait(parent, sel) => Waited(t, parent, sel)
    case Refused => t.(next := t.next + 1)
    case ForceExit(group, code) => GroupsEnded(t, {group}, code)
    case KillSubtree(root, code) => GroupsEnded(t, Subtree(t, root), code)
  }

  ghost predicate Reaches(t: Table, ops: seq<Op>, u: Table)
    decreases |ops|
  {
    if ops == [] then t == u else Legal(t, ops[0]) && Reaches(Step(t, ops[0]), ops[1..], u)
  }

  lemma StepKeeps(t: Table, op: Op)
    requires Forest(t) && Legal(t, op)
    ensures Forest(Step(t, op))
  {
    hide ForestAt, Subtree;
    var root :| ForestAt(t, root);
    match op
    case Spawn(parent) => SpawnKeeps(t, root, parent);
    case Fork(tid) => ForkKeeps(t, root, tid);
    case Clone(tid) => CloneKeeps(t, root, tid);
    case Exec(tid) => ExecKeeps(t, root, tid);
    case ExitThread(tid, code) => DyingKeeps(t, root, ThreadEnded(t, tid, code));
    case ExitGroup(tid, code) => DyingKeeps(t, root, GroupsEnded(t, {t.procs[tid].tgid}, code));
    case Wait(parent, sel) => WaitKeeps(t, root, parent, sel);
    case Refused => RefusedKeeps(t, root);
    case ForceExit(group, code) => DyingKeeps(t, root, GroupsEnded(t, {group}, code));
    case KillSubtree(top, code) => DyingKeeps(t, root, GroupsEnded(t, Subtree(t, top), code));
  }

  lemma {:induction false} RunKeepsForest(t: Table, ops: seq<Op>, u: Table)
    requires Forest(t) && Reaches(t, ops, u)
    ensures Forest(u)
    decreases |ops|
  {
    if ops != [] {
      StepKeeps(t, ops[0]);
      RunKeepsForest(Step(t, ops[0]), ops[1..], u);
    }
  }

  function Empty(): Table { Table(map[], 1) }

  /** Over every run from the empty table: identifiers are fresh, a parent's group number is smaller than
      its child's, and a live thread's parent group has not been reaped. */
  lemma EveryRunKeepsForest(ops: seq<Op>, u: Table)
    requires Reaches(Empty(), ops, u)
    ensures Forest(u)
  {
    StartIsForest();
    RunKeepsForest(Empty(), ops, u);
  }

  // ----- subtrees

  /** Every descendant but the root has a live thread. */
  lemma DescendantIsLive(t: Table, root: int, g: int)
    requires LiveGroup(t, root) && Descends(t, root, g)
    ensures LiveGroup(t, g) && g in Groups(t)
  {
    var path :| Chain(t, path) && path[0] == root && path[|path| - 1] == g;
    if |path| > 1 {
      assert Edge(t, path[|path| - 2], path[|path| - 1]);
    }
  }

  lemma DescendsExtends(t: Table, root: int, p: int, g: int)
    requires Descends(t, root, p) && Edge(t, p, g)
    ensures Descends(t, root, g)
  {
    var path :| Chain(t, path) && path[0] == root && path[|path| - 1] == p;
    assert Chain(t, path + [g]);
  }

  /** A set that holds the root and all live children of its members holds every descendant. */
  lemma {:induction false} ClosedHoldsDescendants(t: Table, s: set<int>, path: seq<int>)
    requires Chain(t, path) && path[0] in s
    requires forall p, g :: p in s && Edge(t, p, g) ==> g in s
    ensures path[|path| - 1] in s
    decreases |path|
  {
    if |path| > 1 {
      var front := path[..|path| - 1];
      assert Chain(t, front);
      ClosedHoldsDescendants(t, s, front);
      assert Edge(t, path[|path| - 2], path[|path| - 1]);
    }
  }

  /** Killing a subtree leaves no live thread in any group that was in it, and no subtree to find again. */
  lemma KillLeavesNoneLive(t: Table, root: int, code: int)
    ensures forall g :: g in Subtree(t, root) ==> !LiveGroup(GroupsEnded(t, Subtree(t, root), code), g)
    ensures Subtree(GroupsEnded(t, Subtree(t, root), code), root) == {}
  {
    var u := GroupsEnded(t, Subtree(t, root), code);
    if LiveGroup(t, root) {
      assert Chain(t, [root]);
      assert Descends(t, root, root);
      DescendantIsLive(t, root, root);
      assert root in Subtree(t, root);
      assert !LiveGroup(u, root);
    }
  }

  /** Nothing below the root escapes: a thread whose parent is in the subtree is dead after the kill. */
  lemma KillMissesNoChild(t: Table, root: int, code: int, tid: int)
    requires ParentsFirst(t) && tid in t.procs
    requires t.procs[tid].parent.Some? && t.procs[tid].parent.value in Subtree(t, root)
    ensures !GroupsEnded(t, Subtree(t, root), code).procs[tid].live
  {
    var p := t.procs[tid];
    if p.live {
      assert Edge(t, p.parent.value, p.tgid);
      DescendsExtends(t, root, p.parent.value, p.tgid);
      DescendantIsLive(t, root, p.tgid);
    }
  }

  // ----- the breadth-first listing

  ghost predicate Discovered(t: Table, out: seq<int>, i: int)
    requires 0 <= i < |out|
  {
    exists j :: 0 <= j < i && Edge(t, out[j], out[i])
  }

  /** `out` lists the live subtree of `root`, each group once and after the group it was found from. */
  ghost predicate Lists(t: Table, root: int, out: seq<int>)
  {
    && (forall i, j :: 0 <= i < j < |out| ==> out[i] != out[j])
    && (forall g :: g in out <==> g in Subtree(t, root))
    && (out != [] ==> out[0] == root)
    && (forall i :: 0 < i < |out| ==> Discovered(t, out, i))
  }

  lemma {:induction false} ChainRises(t: Table, path: seq<int>)
    requires ParentsFirst(t) && Chain(t, path)
    ensures path[0] <= path[|path| - 1]
    decreases |path|
  {
    if |path| > 1 {
      assert Chain(t, path[..|path| - 1]);
      ChainRises(t, path[..|path| - 1]);
      assert Edge(t, path[|path| - 2], path[|path| - 1]);
    }
  }

  lemma DescendantIsYounger(t: Table, root: int, g: int)
    requires ParentsFirst(t) && Descends(t, root, g)
    ensures root <= g
  {
    var path :| Chain(t, path) && path[0] == root && path[|path| - 1] == g;
    ChainRises(t, path);
  }

  lemma EdgeIsUnique(t: Table, p: int, q: int, g: int)
    requires Forest(t)
    ensures Edge(t, p, g) ==> p < g
    ensures Edge(t, p, g) && Edge(t, q, g) ==> p == q
  {
  }

  /** In a forest the listing is topological: a group's parent is never listed after the group. */
  lemma ListedAfterParent(t: Table, root: int, out: seq<int>, i: int, j: int)
    requires Forest(t) && Lists(t, root, out)
    requires 0 <= i <= j < |out|
    ensures !Edge(t, out[j], out[i])
  {
    if i == 0 {
      assert out[j] in out;
      DescendantIsYounger(t, root, out[j]);
      EdgeIsUnique(t, out[j], out[j], out[i]);
    } else {
      assert Discovered(t, out, i);
      var k :| 0 <= k < i && Edge(t, out[k], out[i]);
      assert out[k] != out[j];
      EdgeIsUnique(t, out[k], out[j], out[i]);
    }
  }

  // ----- two counterexamples

  /** With a second parentless process the order can break: a non-leader thread of the first process replaces
      its image, so the second root comes first in the table and adopts an older orphan. */
  lemma TwoRootsBreakOrder()
    ensures exists ops: seq<Op>, u: Table ::
      && ReachesLoosely(Empty(), ops, u)
      && !ParentsFirst(u)
  {
    var t0 := Empty();
    var root := Proc(1, 1, None, true, None);
    var child := Proc(2, 1, Some(1), true, None);
    var grandchild := Proc(3, 1, Some(2), true, None);
    var second := Proc(4, 4, None, true, None);
    var t1 := Table(map[1 := root], 2);
    var t2 := Table(map[1 := root, 2 := child], 3);
    var t3 := Table(map[1 := root, 2 := child, 3 := grandchild], 4);
    var t4 := Table(map[1 := root, 2 := child, 3 := grandchild, 4 := second], 5);
    assert Step(t0, Spawn(None)) == t1;
    assert Step(t1, Fork(1)) == t2;
    assert Step(t2, Fork(2)) == t3;
    assert Step(t3, Spawn(None)) == t4;
    var ops, u := SecondRootBreaksOrder(t4);
    LooseStep(t3, Spawn(None), ops, u);
    LooseStep(t2, Fork(2), [Spawn(None)] + ops, u);
    LooseStep(t1, Fork(1), [Fork(2)] + ([Spawn(None)] + ops), u);
    LooseStep(t0, Spawn(None), [Fork(1)] + ([Fork(2)] + ([Spawn(None)] + ops)), u);
  }

  lemma SecondRootBreaksOrder(t: Table) returns (ops: seq<Op>, u: Table)
    requires t == Table(map[1 := Proc(1, 1, None, true, None), 2 := Proc(2, 1, Some(1), true, None),
                            3 := Proc(3, 1, Some(2), true, None), 4 := Proc(4, 4, None, true, None)], 5)
    ensures ReachesLoosely(t, ops, u) && !ParentsFirst(u)
  {
    var root := t.procs[1];
    var child := Ended(t.procs[2], 0);
    var t5 := Table(t.procs[5 := root], 6);
    var t6 := Table(map[1 := root, 2 := child, 3 := t.procs[3], 4 := t.procs[4], 5 := root], 6);
    var t7 := Table(map[2 := child, 3 := t.procs[3], 4 := t.procs[4], 5 := root], 6);
    assert Step(t, Clone(1)) == t5;
    assert Step(t5, ExitGroup(2, 0)) == t6;
    assert Step(t6, Exec(5)) == t7;
    SecondRootAdopts(t7);
    u := Step(t7, Wait(1, Any));
    LooseStep(t7, Wait(1, Any), [], u);
    LooseStep(t6, Exec(5), [Wait(1, Any)], u);
    LooseStep(t5, ExitGroup(2, 0), [Exec(5), Wait(1, Any)], u);
    ops := [Clone(1), ExitGroup(2, 0), Exec(5), Wait(1, Any)];
    LooseStep(t, Clone(1), [ExitGroup(2, 0), Exec(5), Wait(1, Any)], u);
  }

  ghost predicate ReachesLoosely(t: Table, ops: seq<Op>, u: Table)
    decreases |ops|
  {
    if ops == [] then t == u else Acts(t, ops[0]) && ReachesLoosely(Step(t, ops[0]), ops[1..], u)
  }

  lemma LooseStep(t: Table, op: Op, rest: seq<Op>, u: Table)
    requires Acts(t, op) && ReachesLoosely(Step(t, op), rest, u)
    ensures ReachesLoosely(t, [op] + rest, u)
  {
    assert ([op] + rest)[1..] == rest;
  }

  lemma SecondRootAdopts(t: Table)
    requires t.procs == map[2 := Ended(Proc(2, 1, Some(1), true, None), 0), 3 := Proc(3, 1, Some(2), true, None),
                            4 := Proc(4, 4, None, true, None), 5 := Proc(1, 1, None, true, None)]
    ensures !ParentsFirst(Waited(t, 1, Any))
  {
    assert Zombies(t.procs, 1, Any) == {2};
    assert Least(Zombies(t.procs, 1, Any)) == 2;
    assert Parentless(t.procs) == {4, 5};
    assert Least(Parentless(t.procs)) == 4;
    var u := Waited(t, 1, Any);
    assert u == Reaped(t, 2);
    assert 3 in u.procs && u.procs[3].parent == Some(4);
  }

  ghost predicate LosesLive(t: Table, u: Table)
  {
    exists tid :: tid in t.procs && t.procs[tid].live && tid !in u.procs
  }

  lemma OneStep(t: Table, op: Op, rest: seq<Op>, u: Table)
    requires Legal(t, op) && Reaches(Step(t, op), rest, u)
    ensures Reaches(t, [op] + rest, u)
  {
    assert ([op] + rest)[1..] == rest;
  }

  /** One exited thread makes its whole group collectable, live threads included: the first process forks,
      the child makes a second thread, that thread exits, and the wait removes the child's live thread. */
  lemma WaitCanReapLiveThreads()
    ensures exists ops: seq<Op>, t: Table :: Reaches(Empty(), ops, t) && LosesLive(t, Waited(t, 1, Any))
  {
    var t0 := Empty();
    var root := Proc(1, 1, None, true, None);
    var child := Proc(2, 1, Some(1), true, None);
    var t1 := Table(map[1 := root], 2);
    var t2 := Table(map[1 := root, 2 := child], 3);
    var t3 := Table(map[1 := root, 2 := child, 3 := child], 4);
    var t4 := Table(map[1 := root, 2 := child, 3 := Ended(child, 0)], 4);
    assert Step(t0, Spawn(None)) == t1;
    assert Step(t1, Fork(1)) == t2;
    assert Step(t2, Clone(2)) == t3;
    assert 2 in t3.procs && OthersLive(t3.procs, 3);
    assert Step(t3, ExitThread(3, 0)) == t4;
    HalfExitedGoes(t4);
    OneStep(t3, ExitThread(3, 0), [], t4);
    OneStep(t2, Clone(2), [ExitThread(3, 0)], t4);
    OneStep(t1, Fork(1), [Clone(2), ExitThread(3, 0)], t4);
    OneStep(t0, Spawn(None), [Fork(1), Clone(2), ExitThread(3, 0)], t4);
    assert 2 in t4.procs && t4.procs[2].live;
  }

  lemma HalfExitedGoes(t: Table)
    requires t.procs == map[1 := Proc(1, 1, None, true, None), 2 := Proc(2, 1, Some(1), true, None),
                            3 := Ended(Proc(2, 1, Some(1), true, None), 0)]
    ensures 2 !in Waited(t, 1, Any).procs
  {
    assert Zombies(t.procs, 1, Any) == {3};
    assert Least(Zombies(t.procs, 1, Any)) == 3;
    assert Waited(t, 1, Any) == Reaped(t, 2);
  }

  /** A wait removes a live thread exactly when the group of the exited child it finds has one. */
  lemma WaitRemovesLiveIff(t: Table, parent: int, sel: Selector)
    requires Zombies(t.procs, parent, sel) != {}
    ensures LosesLive(t, Waited(t, parent, sel)) <==>
      LiveGroup(t, t.procs[Least(Zombies(t.procs, parent, sel))].tgid)
  {
    var g := t.procs[Least(Zombies(t.procs, parent, sel))].tgid;
    var u := Reaped(t, g);
    assert forall tid :: tid in t.procs ==> (tid in u.procs <==> t.procs[tid].tgid != g);
  }
}
