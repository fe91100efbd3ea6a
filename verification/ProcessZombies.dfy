/** Exited threads and who can still collect them: reaping reparents live children only, so an exited child of a
reaped group keeps a parent that is gone.
 */
module ProcessZombies {
  import opened Wrappers
  import opened Ordered
  import opened ProcessForest
  import opened ProcessRuns

  /** The parent group of every thread, live or exited, is in the table. */
  ghost predicate AllParentsPresent(t: Table)
  {
    forall tid :: tid in t.procs && t.procs[tid].parent.Some? ==> Present(t, t.procs[tid].parent.value)
  }

  /** Group `g` has an exited child. */
  ghost predicate HasExitedChild(t: Table, g: int)
  {
    exists tid :: tid in t.procs && !t.procs[tid].live && t.procs[tid].parent == Some(g)
  }

  /** The operation collects a group that has an exited child of its own. */
  ghost predicate Strands(t: Table, op: Op)
  {
    && op.Wait? && Zombies(t.procs, op.waiter, op.sel) != {}
    && HasExitedChild(t, t.procs[Least(Zombies(t.procs, op.waiter, op.sel))].tgid)
  }

  lemma PresentElsewhere(t: Table, g: int, p: int)
    requires Present(t, p) && p != g
    ensures Present(Reaped(t, g), p)
  {
    hide Adopter;
    var a :| a in t.procs && t.procs[a].tgid == p;
    assert a in Reaped(t, g).procs && Reaped(t, g).procs[a].tgid == p;
  }

  /** Reaping leaves every parent present exactly when the group has no exited child. */
  lemma ReapStrandsIff(t: Table, root: int, g: int)
    requires ForestAt(t, root) && t.procs != map[] && g != root && AllParentsPresent(t)
    ensures AllParentsPresent(Reaped(t, g)) <==> !HasExitedChild(t, g)
  {
    hide Adopter;
    var u := Reaped(t, g);
    AdopterIsRoot(t, root);
    ReapKeeps(t, root, g);
    PresentElsewhere(t, g, root);
    if HasExitedChild(t, g) {
      var tid :| tid in t.procs && !t.procs[tid].live && t.procs[tid].parent == Some(g);
      assert tid in u.procs && u.procs[tid].parent == Some(g);
    } else {
      forall tid | tid in u.procs && u.procs[tid].parent.Some?
        ensures Present(u, u.procs[tid].parent.value)
      {
        var p := t.procs[tid].parent;
        if u.procs[tid].parent == p {
          PresentElsewhere(t, g, p.value);
        }
      }
    }
  }

  /** A step that keeps every thread's group and parent, and every group, keeps every parent present. */
  lemma SameParents(t: Table, u: Table)
    requires AllParentsPresent(t)
    requires forall tid :: tid in u.procs ==> tid in t.procs && u.procs[tid].parent == t.procs[tid].parent
    requires forall g :: Present(t, g) ==> Present(u, g)
    ensures AllParentsPresent(u)
  {
  }

  lemma AddParent(t: Table, p: Proc)
    requires AllParentsPresent(t) && Numbered(t) && (p.parent.Some? ==> Present(t, p.parent.value))
    ensures AllParentsPresent(Add(t, p))
  {
    PresentGrows(t, Add(t, p));
  }

  lemma ExecKeepsPresent(t: Table, tid: int)
    requires tid in t.procs
    ensures forall g :: Present(t, g) ==> Present(Execed(t, tid), g)
  {
    var u := Execed(t, tid);
    forall g | Present(t, g)
      ensures Present(u, g)
    {
      var a :| a in t.procs && t.procs[a].tgid == g;
      if g == t.procs[tid].tgid {
        assert tid in u.procs && u.procs[tid].tgid == g;
      } else {
        assert a in u.procs && u.procs[a].tgid == g;
      }
    }
  }

  /** Which operations leave an exited thread behind that nobody is the parent of: exactly the waits that collect
      a group with an exited child. */
  lemma StrandsIff(t: Table, op: Op)
    requires Forest(t) && Legal(t, op) && AllParentsPresent(t)
    ensures AllParentsPresent(Step(t, op)) <==> !Strands(t, op)
  {
    hide ForestAt, Subtree, AllParentsPresent, HasExitedChild;
    var root :| ForestAt(t, root);
    ForestNumbered(t, root);
    match op
    case Spawn(parent) => AddParent(t, Spawned(t, parent).procs[t.next]);
    case Fork(tid) =>
      assert Present(t, t.procs[tid].tgid);
      AddParent(t, Forked(t, tid).procs[t.next]);
    case Clone(tid) =>
      ParentOf(t, tid);
      AddParent(t, Cloned(t, tid).procs[t.next]);
    case Exec(tid) =>
      ExecKeepsPresent(t, tid);
      SameParents(t, Execed(t, tid));
    case ExitThread(tid, code) =>
      PresentGrows(t, ThreadEnded(t, tid, code));
      SameParents(t, ThreadEnded(t, tid, code));
    case ExitGroup(tid, code) =>
      PresentGrows(t, Step(t, op));
      SameParents(t, Step(t, op));
    case Wait(waiter, sel) =>
      if Zombies(t.procs, waiter, sel) != {} {
        var z := Least(Zombies(t.procs, waiter, sel));
        assert z in t.procs && t.procs[z].parent == Some(waiter);
        NotRoot(t, root, z);
        ReapStrandsIff(t, root, t.procs[z].tgid);
      }
    case Refused =>
      PresentGrows(t, Step(t, op));
      SameParents(t, Step(t, op));
    case ForceExit(group, code) =>
      PresentGrows(t, Step(t, op));
      SameParents(t, Step(t, op));
    case KillSubtree(top, code) =>
      PresentGrows(t, Step(t, op));
      SameParents(t, Step(t, op));
  }

  lemma ForestNumbered(t: Table, root: int)
    requires ForestAt(t, root)
    ensures Numbered(t) && ParentsFirst(t)
  {
  }

  lemma ParentOf(t: Table, tid: int)
    requires AllParentsPresent(t) && tid in t.procs
    ensures t.procs[tid].parent.Some? ==> Present(t, t.procs[tid].parent.value)
  {
  }

  lemma NotRoot(t: Table, root: int, tid: int)
    requires ForestAt(t, root) && tid in t.procs && t.procs[tid].parent.Some?
    ensures t.procs[tid].tgid != root && t.procs != map[]
  {
  }

  // ----- stranded for good

  /** Every thread of group `g` has exited under a parent group that is no longer in the table. */
  ghost predicate Stranded(t: Table, g: int)
  {
    && Present(t, g)
    && forall tid :: tid in t.procs && t.procs[tid].tgid == g ==>
      && !t.procs[tid].live && t.procs[tid].parent.Some?
      && t.procs[tid].parent.value < t.next && !Present(t, t.procs[tid].parent.value)
  }

  /** Waits are made by a group in the table, as the system call does. */
  ghost predicate Attended(t: Table, op: Op)
  {
    op.Wait? ==> Present(t, op.waiter)
  }

  /** A step after which group `g` is as it was and no old group number appears anew. */
  lemma StrandedKept(t: Table, u: Table, g: int)
    requires Stranded(t, g) && t.next <= u.next
    requires forall tid :: tid in t.procs && t.procs[tid].tgid == g ==>
      tid in u.procs && u.procs[tid].tgid == g
    requires forall tid :: tid in u.procs && u.procs[tid].tgid == g ==>
      tid in t.procs && t.procs[tid].tgid == g && u.procs[tid].parent == t.procs[tid].parent && !u.procs[tid].live
    requires forall p :: Present(u, p) ==> p >= t.next || Present(t, p)
    ensures Stranded(u, g)
  {
    var tid :| tid in t.procs && t.procs[tid].tgid == g;
    assert tid in u.procs && u.procs[tid].tgid == g;
  }

  lemma AddStrands(t: Table, p: Proc, g: int)
    requires Stranded(t, g) && Numbered(t) && p.tgid != g && (p.tgid == t.next || Present(t, p.tgid))
    ensures Stranded(Add(t, p), g)
  {
    var u := Add(t, p);
    forall q | Present(u, q)
      ensures q >= t.next || Present(t, q)
    {
      var tid :| tid in u.procs && u.procs[tid].tgid == q;
      assert tid == t.next || (tid in t.procs && t.procs[tid].tgid == q);
    }
    StrandedKept(t, u, g);
  }

  /** Nothing of `u` but liveness and exit codes differs from part of `t`, and all of `g` is there. */
  lemma FewerStrands(t: Table, u: Table, g: int)
    requires Stranded(t, g) && t.next <= u.next
    requires forall tid :: tid in u.procs ==> tid in t.procs && u.procs[tid].tgid == t.procs[tid].tgid
    requires forall tid :: tid in t.procs && t.procs[tid].tgid == g ==>
      tid in u.procs && u.procs[tid].parent == t.procs[tid].parent && !u.procs[tid].live
    ensures Stranded(u, g)
  {
    forall q | Present(u, q)
      ensures q >= t.next || Present(t, q)
    {
      var tid :| tid in u.procs && u.procs[tid].tgid == q;
      assert tid in t.procs && t.procs[tid].tgid == q;
    }
    StrandedKept(t, u, g);
  }

  lemma StrandedMember(t: Table, g: int, tid: int)
    requires Stranded(t, g) && tid in t.procs && t.procs[tid].tgid == g
    ensures !t.procs[tid].live && t.procs[tid].parent.Some? && !Present(t, t.procs[tid].parent.value)
  {
  }

  lemma StrandedIsOld(t: Table, g: int)
    requires Stranded(t, g) && Numbered(t)
    ensures g < t.next
  {
    var tid :| tid in t.procs && t.procs[tid].tgid == g;
  }

  lemma StrandedStep(t: Table, op: Op, g: int)
    requires Forest(t) && Legal(t, op) && Attended(t, op) && Stranded(t, g)
    ensures Stranded(Step(t, op), g)
  {
    hide ForestAt, Subtree, Stranded, Adopter;
    var root :| ForestAt(t, root);
    ForestNumbered(t, root);
    StrandedIsOld(t, g);
    forall tid | tid in t.procs && t.procs[tid].tgid == g
      ensures !t.procs[tid].live && t.procs[tid].parent.Some? && !Present(t, t.procs[tid].parent.value)
    {
      StrandedMember(t, g, tid);
    }
    match op
    case Spawn(parent) => AddStrands(t, Spawned(t, parent).procs[t.next], g);
    case Fork(tid) => AddStrands(t, Forked(t, tid).procs[t.next], g);
    case Clone(tid) =>
      assert Present(t, t.procs[tid].tgid);
      AddStrands(t, Cloned(t, tid).procs[t.next], g);
    case Exec(tid) => FewerStrands(t, Execed(t, tid), g);
    case ExitThread(tid, code) => FewerStrands(t, ThreadEnded(t, tid, code), g);
    case Wait(waiter, sel) =>
      if Zombies(t.procs, waiter, sel) != {} {
        var z := Least(Zombies(t.procs, waiter, sel));
        assert z in t.procs && t.procs[z].parent == Some(waiter);
        ReapedIs(t, t.procs[z].tgid);
        hide Reaped;
        FewerStrands(t, Reaped(t, t.procs[z].tgid), g);
      }
    case _ => FewerStrands(t, Step(t, op), g);
  }

  /** A stranded group stays in the table for the rest of every run: nobody can collect it any more. */
  lemma {:induction false} StrandedForever(t: Table, ops: seq<Op>, u: Table, g: int)
    requires Forest(t) && Reaches(t, ops, u) && AttendedRun(t, ops) && Stranded(t, g)
    ensures Stranded(u, g)
    decreases |ops|
  {
    hide Forest, Stranded, Legal, Attended;
    if ops != [] {
      StepKeeps(t, ops[0]);
      StrandedStep(t, ops[0], g);
      StrandedForever(Step(t, ops[0]), ops[1..], u, g);
    }
  }

  ghost predicate AttendedRun(t: Table, ops: seq<Op>)
    decreases |ops|
  {
    ops == [] || (Acts(t, ops[0]) && Attended(t, ops[0]) && AttendedRun(Step(t, ops[0]), ops[1..]))
  }

  /** It happens: a grandchild exits, then its parent, and the first process collects the parent. */
  lemma GrandchildStranded()
    ensures exists ops: seq<Op>, u: Table :: Reaches(Empty(), ops, u) && Stranded(u, 3)
  {
    var t0 := Empty();
    var root := Proc(1, 1, None, true, None);
    var child := Proc(2, 1, Some(1), true, None);
    var grandchild := Proc(3, 1, Some(2), true, None);
    var t1 := Table(map[1 := root], 2);
    var t2 := Table(map[1 := root, 2 := child], 3);
    var t3 := Table(map[1 := root, 2 := child, 3 := grandchild], 4);
    assert Step(t0, Spawn(None)) == t1;
    assert Step(t1, Fork(1)) == t2;
    assert Step(t2, Fork(2)) == t3;
    var ops, u := BothExit(t3);
    OneStep(t2, Fork(2), ops, u);
    OneStep(t1, Fork(1), [Fork(2)] + ops, u);
    OneStep(t0, Spawn(None), [Fork(1)] + ([Fork(2)] + ops), u);
  }

  /** Grandchild and child exit in this order, and the child is collected. */
  lemma BothExit(t: Table) returns (ops: seq<Op>, u: Table)
    requires t == Table(map[1 := Proc(1, 1, None, true, None), 2 := Proc(2, 1, Some(1), true, None),
                            3 := Proc(3, 1, Some(2), true, None)], 4)
    ensures Reaches(t, ops, u) && Stranded(u, 3)
  {
    var root, child, grandchild := t.procs[1], t.procs[2], t.procs[3];
    var t4 := Table(map[1 := root, 2 := child, 3 := Ended(grandchild, 0)], 4);
    var t5 := Table(map[1 := root, 2 := Ended(child, 0), 3 := Ended(grandchild, 0)], 4);
    assert Step(t, ExitGroup(3, 0)) == t4;
    assert Step(t4, ExitGroup(2, 0)) == t5;
    u := Step(t5, Wait(1, Any));
    ParentCollected(t5);
    OneStep(t5, Wait(1, Any), [], u);
    OneStep(t4, ExitGroup(2, 0), [Wait(1, Any)], u);
    ops := [ExitGroup(3, 0), ExitGroup(2, 0), Wait(1, Any)];
    OneStep(t, ExitGroup(3, 0), [ExitGroup(2, 0), Wait(1, Any)], u);
  }

  lemma ParentCollected(t: Table)
    requires t.procs == map[1 := Proc(1, 1, None, true, None),
                            2 := Ended(Proc(2, 1, Some(1), true, None), 0),
                            3 := Ended(Proc(3, 1, Some(2), true, None), 0)] && t.next == 4
    ensures Stranded(Waited(t, 1, Any), 3)
  {
    assert Zombies(t.procs, 1, Any) == {2};
    assert Least(Zombies(t.procs, 1, Any)) == 2;
    var u := Waited(t, 1, Any);
    assert u == Reaped(t, 2);
    assert 3 in u.procs && u.procs[3] == t.procs[3] && 2 !in u.procs;
    assert !Present(u, 2);
  }
}
