/** The process table as a forest of thread groups: what each operation makes of the table, and what every
run keeps.  A thread group is named by its `tgid`; each thread records the group of its parent.
 */
module ProcessForest {
  import opened Wrappers
  import opened Ordered

  datatype Proc = Proc(tgid: int, pgid: int, parent: Option<int>, live: bool, code: Option<int>)

  datatype Table = Table(procs: map<int, Proc>, next: int)

  datatype Selector = Any | Pid(pid: int) | Pgid(pgid: int)

  predicate Selects(sel: Selector, p: Proc)
  {
    match sel
    case Any => true
    case Pid(pid) => p.tgid == pid
    case Pgid(pgid) => p.pgid == pgid
  }

  // ----- the operations

  function Add(t: Table, p: Proc): Table { Table(t.procs[t.next := p], t.next + 1) }

  function Spawned(t: Table, parent: Option<int>): Table
  {
    Add(t, Proc(t.next, if parent.Some? then parent.value else t.next, parent, true, None))
  }

  function Forked(t: Table, tid: int): Table
    requires tid in t.procs
  {
    Add(t, Proc(t.next, t.procs[tid].pgid, Some(t.procs[tid].tgid), true, None))
  }

  function Cloned(t: Table, tid: int): Table
    requires tid in t.procs
  {
    Add(t, t.procs[tid].(live := true, code := None))
  }

  function Members(procs: map<int, Proc>, g: int): set<int>
  {
    set tid | tid in procs && procs[tid].tgid == g
  }

  /** Image replacement: the other threads of the group vanish. */
  function Execed(t: Table, tid: int): Table
    requires tid in t.procs
  {
    var p := t.procs[tid];
    t.(procs := (t.procs - (Members(t.procs, p.tgid) - {tid}))[tid := p.(live := true, code := None)])
  }

  function Ended(p: Proc, code: int): Proc { p.(live := false, code := Some(code)) }

  /** Every thread of the groups in `groups` has exited with `code`. */
  function GroupsEnded(t: Table, groups: set<int>, code: int): Table
  {
    t.(procs := map tid | tid in t.procs ::
      if t.procs[tid].tgid in groups then Ended(t.procs[tid], code) else t.procs[tid])
  }

  predicate OthersLive(procs: map<int, Proc>, tid: int)
    requires tid in procs
  {
    exists other :: other in procs && other != tid && procs[other].tgid == procs[tid].tgid && procs[other].live
  }

  function ThreadEnded(t: Table, tid: int, code: int): Table
    requires tid in t.procs
  {
    if OthersLive(t.procs, tid)
    then t.(procs := t.procs[tid := Ended(t.procs[tid], code)])
    else GroupsEnded(t, {t.procs[tid].tgid}, code)
  }

  function Parentless(procs: map<int, Proc>): set<int>
  {
    set tid | tid in procs && procs[tid].parent.None?
  }

  /** Who adopts: the group of the first parentless thread in key order, or 1. */
  function Adopter(procs: map<int, Proc>): int
  {
    if Parentless(procs) == {} then 1 else procs[Least(Parentless(procs))].tgid
  }

  predicate Orphaned(p: Proc, g: int)
  {
    p.live && p.parent == Some(g) && p.tgid != g
  }

  function Reparented(procs: map<int, Proc>, g: int): map<int, Proc>
  {
    var init := Adopter(procs);
    map tid | tid in procs :: if Orphaned(procs[tid], g) then procs[tid].(parent := Some(init)) else procs[tid]
  }

  function Reaped(t: Table, g: int): Table
  {
    var moved := Reparented(t.procs, g);
    t.(procs := moved - Members(moved, g))
  }

  /** The exited children a wait may collect. */
  function Zombies(procs: map<int, Proc>, parent: int, sel: Selector): set<int>
  {
    set tid | tid in procs && procs[tid].parent == Some(parent) && !procs[tid].live && Selects(sel, procs[tid])
  }

  function Waited(t: Table, parent: int, sel: Selector): Table
  {
    if Zombies(t.procs, parent, sel) == {} then t
    else Reaped(t, t.procs[Least(Zombies(t.procs, parent, sel))].tgid)
  }

  // ----- descent

  ghost predicate Present(t: Table, g: int)
  {
    exists tid :: tid in t.procs && t.procs[tid].tgid == g
  }

  ghost predicate LiveGroup(t: Table, g: int)
  {
    exists tid :: tid in t.procs && t.procs[tid].tgid == g && t.procs[tid].live
  }

  /** Group `g` has a live thread whose parent is group `p`. */
  ghost predicate Edge(t: Table, p: int, g: int)
  {
    && p != g
    && exists tid ::
      tid in t.procs && t.procs[tid].live && t.procs[tid].tgid == g && t.procs[tid].parent == Some(p)
  }

  ghost predicate Chain(t: Table, path: seq<int>)
  {
    |path| > 0 && forall i :: 0 < i < |path| ==> Edge(t, path[i - 1], path[i])
  }

  ghost predicate Descends(t: Table, root: int, g: int)
  {
    exists path :: Chain(t, path) && path[0] == root && path[|path| - 1] == g
  }

  function Groups(t: Table): set<int>
  {
    set tid | tid in t.procs :: t.procs[tid].tgid
  }

  /** The live subtree of a group: empty when no thread of the group itself is live. */
  ghost function Subtree(t: Table, root: int): set<int>
  {
    set g | g in Groups(t) && LiveGroup(t, root) && Descends(t, root, g)
  }

  // ----- what every run keeps

  /** Parents are older than their children. */
  ghost predicate ParentsFirst(t: Table)
  {
    forall tid :: tid in t.procs && t.procs[tid].parent.Some? ==> t.procs[tid].parent.value < t.procs[tid].tgid
  }

  ghost predicate Numbered(t: Table)
  {
    && 0 < t.next
    && forall tid :: tid in t.procs ==> 0 < t.procs[tid].tgid <= tid < t.next
  }

  /** A group's number belongs to the thread that started it. */
  ghost predicate LeadersOwn(t: Table)
  {
    forall a :: a in t.procs && t.procs[a].tgid in t.procs ==> t.procs[t.procs[a].tgid].tgid == t.procs[a].tgid
  }

  /** A live thread's parent group is in the table. */
  ghost predicate ParentsPresent(t: Table)
  {
    forall tid :: tid in t.procs && t.procs[tid].live && t.procs[tid].parent.Some? ==>
      Present(t, t.procs[tid].parent.value)
  }

  /** The live threads of a group have one parent. */
  ghost predicate OneParent(t: Table)
  {
    forall a, b :: a in t.procs && b in t.procs && t.procs[a].live && t.procs[b].live ==>
      t.procs[a].tgid == t.procs[b].tgid ==> t.procs[a].parent == t.procs[b].parent
  }

  /** Exactly the threads of group `root`, the oldest, have no parent, and it is never reaped. */
  ghost predicate RootedAt(t: Table, root: int)
  {
    && (forall tid :: tid in t.procs ==> root <= t.procs[tid].tgid)
    && (forall tid :: tid in t.procs ==> (t.procs[tid].parent.None? <==> t.procs[tid].tgid == root))
    && (t.procs == map[] || Present(t, root))
  }

  ghost predicate ForestAt(t: Table, root: int)
  {
    && Numbered(t) && LeadersOwn(t) && ParentsFirst(t) && ParentsPresent(t) && OneParent(t)
    && RootedAt(t, root)
  }

  ghost predicate Forest(t: Table)
  {
    exists root :: ForestAt(t, root)
  }

  lemma StartIsForest()
    ensures Forest(Table(map[], 1))
  {
    assert ForestAt(Table(map[], 1), 1);
  }

  lemma AddKeeps(t: Table, root: int, p: Proc)
    requires ForestAt(t, root) && t.procs != map[] && p.live
    requires 0 < p.tgid <= t.next
    requires p.tgid in t.procs ==> t.procs[p.tgid].tgid == p.tgid
    requires p.parent.Some? ==> p.parent.value < p.tgid && Present(t, p.parent.value)
    requires root <= p.tgid && (p.parent.None? <==> p.tgid == root)
    requires forall a :: a in t.procs && t.procs[a].live && t.procs[a].tgid == p.tgid ==> t.procs[a].parent == p.parent
    ensures ForestAt(Add(t, p), root)
  {
    assert forall a :: a in t.procs ==> a in Add(t, p).procs && Add(t, p).procs[a] == t.procs[a];
    AddKeepsLeaders(t, p);
    AddKeepsPresent(t, p);
    AddKeepsOneParent(t, p);
    AddKeepsRoot(t, root, p);
    hide LeadersOwn, ParentsPresent, OneParent, RootedAt;
  }

  lemma AddKeepsPresent(t: Table, p: Proc)
    requires Numbered(t) && ParentsPresent(t) && (p.parent.Some? ==> Present(t, p.parent.value))
    ensures ParentsPresent(Add(t, p))
  {
    hide Present;
    PresentGrows(t, Add(t, p));
  }

  lemma AddKeepsOneParent(t: Table, p: Proc)
    requires Numbered(t) && OneParent(t) && p.live
    requires forall a :: a in t.procs && t.procs[a].live && t.procs[a].tgid == p.tgid ==> t.procs[a].parent == p.parent
    ensures OneParent(Add(t, p))
  {
  }

  lemma AddKeepsRoot(t: Table, root: int, p: Proc)
    requires Numbered(t) && RootedAt(t, root) && t.procs != map[]
    requires root <= p.tgid && (p.parent.None? <==> p.tgid == root)
    ensures RootedAt(Add(t, p), root)
  {
    hide Present;
    PresentGrows(t, Add(t, p));
  }

  lemma AddKeepsLeaders(t: Table, p: Proc)
    requires Numbered(t) && LeadersOwn(t) && p.tgid <= t.next
    requires p.tgid in t.procs ==> t.procs[p.tgid].tgid == p.tgid
    ensures LeadersOwn(Add(t, p))
  {
  }

  lemma FewerKeepLeaders(t: Table, u: Table)
    requires LeadersOwn(t)
    requires forall a :: a in u.procs ==> a in t.procs && u.procs[a].tgid == t.procs[a].tgid
    ensures LeadersOwn(u)
  {
  }

  lemma PresentGrows(t: Table, u: Table)
    requires forall a :: a in t.procs ==> a in u.procs && u.procs[a].tgid == t.procs[a].tgid
    ensures forall g :: Present(t, g) ==> Present(u, g)
  {
    forall g | Present(t, g)
      ensures Present(u, g)
    {
      var tid :| tid in t.procs && t.procs[tid].tgid == g;
      assert tid in u.procs;
    }
  }

  lemma SpawnKeeps(t: Table, root: int, parent: Option<int>)
    requires ForestAt(t, root)
    requires match parent case None => t.procs == map[] case Some(p) => Present(t, p)
    ensures ForestAt(Spawned(t, parent), if parent.None? then t.next else root)
  {
    var u := Spawned(t, parent);
    if parent.Some? {
      var tid :| tid in t.procs && t.procs[tid].tgid == parent.value;
      RootIsOld(t, root);
      AddKeeps(t, root, u.procs[t.next]);
    } else {
      assert u.procs.Keys == {t.next};
      assert t.next in u.procs && u.procs[t.next].tgid == t.next;
      assert Present(u, t.next);
    }
  }

  lemma RootIsOld(t: Table, root: int)
    requires ForestAt(t, root) && t.procs != map[]
    ensures root < t.next
  {
    var tid :| tid in t.procs && t.procs[tid].tgid == root;
  }

  lemma ForkKeeps(t: Table, root: int, tid: int)
    requires ForestAt(t, root) && tid in t.procs
    ensures ForestAt(Forked(t, tid), root)
  {
    assert Present(t, t.procs[tid].tgid);
    RootIsOld(t, root);
    AddKeeps(t, root, Forked(t, tid).procs[t.next]);
  }

  lemma CloneKeeps(t: Table, root: int, tid: int)
    requires ForestAt(t, root) && tid in t.procs && t.procs[tid].live
    ensures ForestAt(Cloned(t, tid), root)
  {
    AddKeeps(t, root, Cloned(t, tid).procs[t.next]);
  }

  /** A refused fork or clone only uses up an identifier. */
  lemma RefusedKeeps(t: Table, root: int)
    requires ForestAt(t, root)
    ensures ForestAt(t.(next := t.next + 1), root)
  {
    PresentGrows(t, t.(next := t.next + 1));
  }

  /** Changing only the liveness of threads that stay, or ending threads, keeps the forest. */
  lemma DyingKeeps(t: Table, root: int, u: Table)
    requires ForestAt(t, root) && u.next == t.next && u.procs.Keys == t.procs.Keys
    requires forall a :: a in t.procs ==>
      && u.procs[a].tgid == t.procs[a].tgid && u.procs[a].parent == t.procs[a].parent
      && (u.procs[a].live ==> t.procs[a].live)
    ensures ForestAt(u, root)
  {
    FewerKeepLeaders(t, u);
    hide LeadersOwn;
    PresentGrows(t, u);
    assert u.procs == map[] ==> t.procs == map[] by {
      assert u.procs == map[] ==> t.procs.Keys == {};
    }
  }

  lemma ExecKeeps(t: Table, root: int, tid: int)
    requires ForestAt(t, root) && tid in t.procs && t.procs[tid].live
    ensures ForestAt(Execed(t, tid), root)
  {
    var u := Execed(t, tid);
    ExecIs(t, u, tid);
    FewerKeepLeaders(t, u);
    hide LeadersOwn, Execed;
    ExecGroups(t, u, tid);
    ExecParents(t, u, tid);
    hide ParentsPresent, OneParent, Present;
  }

  lemma ExecIs(t: Table, u: Table, tid: int)
    requires tid in t.procs && t.procs[tid].live && u == Execed(t, tid)
    ensures u.next == t.next && tid in u.procs
    ensures forall a :: a in u.procs <==> a in t.procs && (a == tid || t.procs[a].tgid != t.procs[tid].tgid)
    ensures forall a :: a in u.procs ==> u.procs[a].tgid == t.procs[a].tgid && u.procs[a].parent == t.procs[a].parent
    ensures forall a :: a in u.procs ==> u.procs[a].live == t.procs[a].live
  {
  }

  lemma ExecGroups(t: Table, u: Table, tid: int)
    requires tid in t.procs
    requires forall a :: a in u.procs <==> a in t.procs && (a == tid || t.procs[a].tgid != t.procs[tid].tgid)
    requires forall a :: a in u.procs ==> u.procs[a].tgid == t.procs[a].tgid
    ensures forall g :: Present(t, g) ==> Present(u, g)
  {
    forall g | Present(t, g)
      ensures Present(u, g)
    {
      var a :| a in t.procs && t.procs[a].tgid == g;
      var b := if g == t.procs[tid].tgid then tid else a;
      assert b in u.procs && u.procs[b].tgid == g;
    }
  }

  lemma ExecParents(t: Table, u: Table, tid: int)
    requires ParentsPresent(t) && OneParent(t) && forall g :: Present(t, g) ==> Present(u, g)
    requires forall a :: a in u.procs ==> a in t.procs && u.procs[a].tgid == t.procs[a].tgid
    requires forall a :: a in u.procs ==> u.procs[a].parent == t.procs[a].parent && u.procs[a].live == t.procs[a].live
    ensures ParentsPresent(u) && OneParent(u)
  {
    hide Present;
  }

  lemma AdopterIsRoot(t: Table, root: int)
    requires RootedAt(t, root) && t.procs != map[]
    ensures Adopter(t.procs) == root
  {
    var tid :| tid in t.procs && t.procs[tid].tgid == root;
    assert tid in Parentless(t.procs);
  }

  /** Reaping keeps parents older exactly when the adopter is older than every live orphan. */
  lemma ReapKeepsOrderIff(t: Table, g: int)
    requires ParentsFirst(t)
    ensures ParentsFirst(Reaped(t, g)) <==>
      forall tid :: tid in t.procs && Orphaned(t.procs[tid], g) ==> Adopter(t.procs) < t.procs[tid].tgid
  {
    hide Adopter;
    var u := Reaped(t, g);
    forall tid | tid in t.procs && Orphaned(t.procs[tid], g)
      ensures tid in u.procs && u.procs[tid].parent == Some(Adopter(t.procs)) && u.procs[tid].tgid == t.procs[tid].tgid
    {
    }
  }

  lemma ReapKeepsLeaders(t: Table, g: int)
    requires LeadersOwn(t)
    ensures LeadersOwn(Reaped(t, g))
  {
    hide Adopter;
    FewerKeepLeaders(t, Reaped(t, g));
  }

  lemma ReapKeeps(t: Table, root: int, g: int)
    requires ForestAt(t, root) && t.procs != map[] && g != root
    ensures ForestAt(Reaped(t, g), root) && !Present(Reaped(t, g), g)
  {
    hide Adopter, LeadersOwn, Reaped;
    ReapKeepsLeaders(t, g);
    AdopterIsRoot(t, root);
    ReapKeepsOrderIff(t, g);
    var u := Reaped(t, g);
    ReapedIs(t, g);
    ReapKeepsOthers(t, u, g);
    ReapKeepsPresent(t, u, g, root);
    ReapKeepsOneParent(t, u, g, root);
    hide ParentsPresent, OneParent;
  }

  /** What a reap leaves: the other groups, their orphans adopted. */
  lemma ReapedIs(t: Table, g: int)
    ensures ReapedTo(t, Reaped(t, g), g, Adopter(t.procs))
  {
    hide Adopter;
  }

  ghost predicate ReapedTo(t: Table, u: Table, g: int, adopter: int)
  {
    && u.next == t.next
    && (forall a :: a in u.procs <==> a in t.procs && t.procs[a].tgid != g)
    && forall a :: a in u.procs ==>
      u.procs[a] == if Orphaned(t.procs[a], g) then t.procs[a].(parent := Some(adopter)) else t.procs[a]
  }

  lemma ReapKeepsOthers(t: Table, u: Table, g: int)
    requires forall a :: a in u.procs <==> a in t.procs && t.procs[a].tgid != g
    requires forall a :: a in u.procs ==> u.procs[a].tgid == t.procs[a].tgid
    ensures !Present(u, g) && forall p :: Present(t, p) && p != g ==> Present(u, p)
  {
    forall p | Present(t, p) && p != g
      ensures Present(u, p)
    {
      var a :| a in t.procs && t.procs[a].tgid == p;
      assert a in u.procs && u.procs[a].tgid == p;
    }
  }

  lemma ReapKeepsPresent(t: Table, u: Table, g: int, root: int)
    requires ReapedTo(t, u, g, root) && ParentsPresent(t) && Present(u, root)
    requires forall p :: Present(t, p) && p != g ==> Present(u, p)
    ensures ParentsPresent(u)
  {
    hide Present;
  }

  lemma ReapKeepsOneParent(t: Table, u: Table, g: int, root: int)
    requires ReapedTo(t, u, g, root) && OneParent(t)
    ensures OneParent(u)
  {
  }

  // ----- what a wait collects

  /** Thread `tid` is a child of group `waiter` among those waited for. */
  predicate Child(t: Table, tid: int, waiter: int, sel: Selector)
  {
    && tid in t.procs && t.procs[tid].parent == Some(waiter)
    && (sel.Pid? ==> t.procs[tid].tgid == sel.pid) && (sel.Pgid? ==> t.procs[tid].pgid == sel.pgid)
  }

  /** It has exited. */
  predicate Collectable(t: Table, tid: int, waiter: int, sel: Selector)
  {
    Child(t, tid, waiter, sel) && !t.procs[tid].live
  }

  ghost predicate FirstCollectable(t: Table, tid: int, waiter: int, sel: Selector)
  {
    Collectable(t, tid, waiter, sel) && forall other :: Collectable(t, other, waiter, sel) ==> tid <= other
  }

  lemma ZombiesAre(t: Table, waiter: int, sel: Selector)
    ensures forall tid :: tid in Zombies(t.procs, waiter, sel) <==> Collectable(t, tid, waiter, sel)
    ensures Zombies(t.procs, waiter, sel) != {} <==> exists tid :: Collectable(t, tid, waiter, sel)
    ensures forall tid :: FirstCollectable(t, tid, waiter, sel) <==>
      Zombies(t.procs, waiter, sel) != {} && tid == Least(Zombies(t.procs, waiter, sel))
  {
    HasElement(Zombies(t.procs, waiter, sel));
  }

  // ----- what a wait sees of a new thread

  /** Nothing else in the table changes, and the new thread lives. */
  ghost predicate OnlyAdds(t: Table, u: Table)
  {
    && u.next == t.next + 1 && t.next !in t.procs && u.procs.Keys == t.procs.Keys + {t.next}
    && (forall tid :: tid in t.procs ==> u.procs[tid] == t.procs[tid])
    && u.procs[t.next].live && u.procs[t.next].code.None?
  }

  /** The child a fork adds is a group of its own; its parent finds it by its identifier, by the parent's own process
      group, and among all, and nobody else does. */
  lemma ForkSeen(t: Table, tid: int)
    requires Numbered(t) && tid in t.procs
    ensures OnlyAdds(t, Forked(t, tid)) && Forked(t, tid).procs[t.next].tgid == t.next
    ensures forall w, sel :: Child(Forked(t, tid), t.next, w, sel) <==>
      w == t.procs[tid].tgid && sel in {Any, Pid(t.next), Pgid(t.procs[tid].pgid)}
  {
  }

  /** A wait sees a new thread exactly as it sees the thread that made it. */
  lemma CloneSeen(t: Table, tid: int)
    requires Numbered(t) && tid in t.procs
    ensures OnlyAdds(t, Cloned(t, tid)) && Cloned(t, tid).procs[t.next].tgid == t.procs[tid].tgid
    ensures forall w, sel :: Child(Cloned(t, tid), t.next, w, sel) <==> Child(t, tid, w, sel)
    ensures Cloned(t, tid).procs[t.next].pgid == t.procs[tid].pgid
  {
  }

  /** A spawned process is found by its parent, in the process group named after the parent, or is nobody's child and
      leads a process group of its own. */
  lemma SpawnSeen(t: Table, parent: Option<int>)
    requires Numbered(t)
    ensures OnlyAdds(t, Spawned(t, parent)) && Spawned(t, parent).procs[t.next].tgid == t.next
    ensures forall w, sel :: Child(Spawned(t, parent), t.next, w, sel) <==>
      parent == Some(w) && sel in {Any, Pid(t.next), Pgid(w)}
    ensures parent.None? ==> Spawned(t, parent).procs[t.next].pgid == t.next
  {
  }

  /** After image replacement the thread is alone in its group, lives, and is seen as before; other groups do not
      change. */
  lemma ExecSeen(t: Table, tid: int)
    requires tid in t.procs
    ensures var u := Execed(t, tid);
      && u.next == t.next && tid in u.procs && u.procs[tid].live && u.procs[tid].code.None?
      && (forall a :: a in u.procs <==> a in t.procs && (a == tid || t.procs[a].tgid != t.procs[tid].tgid))
      && (forall a :: a in u.procs && a != tid ==> u.procs[a] == t.procs[a])
      && (forall w, sel :: Child(u, tid, w, sel) <==> Child(t, tid, w, sel))
      && u.procs[tid].tgid == t.procs[tid].tgid && u.procs[tid].pgid == t.procs[tid].pgid
  {
  }

  /** A wait changes the table if and only if a child waited for has exited, and then it removes exactly the group of
      the first one. */
  lemma WaitCollectsIff(t: Table, waiter: int, sel: Selector)
    ensures Waited(t, waiter, sel) != t <==> exists tid :: Collectable(t, tid, waiter, sel)
    ensures forall z :: FirstCollectable(t, z, waiter, sel) ==>
      forall tid :: tid in Waited(t, waiter, sel).procs <==> tid in t.procs && t.procs[tid].tgid != t.procs[z].tgid
  {
    hide Zombies, Reaped;
    ZombiesAre(t, waiter, sel);
    if Zombies(t.procs, waiter, sel) != {} {
      var z := Least(Zombies(t.procs, waiter, sel));
      ReapedIs(t, t.procs[z].tgid);
      assert z in t.procs && z !in Waited(t, waiter, sel).procs;
    }
  }

  /** A wait never collects the first process, whoever waits. */
  lemma WaitKeeps(t: Table, root: int, parent: int, sel: Selector)
    requires ForestAt(t, root)
    ensures ForestAt(Waited(t, parent, sel), root)
  {
    hide Reaped;
    if Zombies(t.procs, parent, sel) != {} {
      var tid := Least(Zombies(t.procs, parent, sel));
      assert tid in t.procs && t.procs[tid].parent == Some(parent);
      ReapKeeps(t, root, t.procs[tid].tgid);
    }
  }
}
