/** The kernel's process table: the loops that walk and edit the thread map, each proved to make exactly the
change that `ProcessForest` names.
 */
module ProcessTables {
  import opened Wrappers
  import opened Ordered
  import opened ProcessForest
  import opened ProcessRuns

  const EBADF: int := 9
  const ECHILD: int := 10

  datatype ThreadExit = ThreadExit(tid: int, tgid: int, parent: Option<int>, groupExited: bool)

  datatype GroupExit = GroupExit(tgid: int, tids: seq<int>, parent: Option<int>)

  // ----- the loops, as functions

  function EndAll(procs: map<int, Proc>, todo: seq<int>, code: int): map<int, Proc>
    decreases |todo|
  {
    if todo == [] then procs
    else EndAll(if todo[0] in procs then procs[todo[0] := Ended(procs[todo[0]], code)] else procs, todo[1..], code)
  }

  lemma {:induction false} EndAllMeaning(procs: map<int, Proc>, todo: seq<int>, code: int)
    ensures EndAll(procs, todo, code).Keys == procs.Keys
    ensures forall k :: k in procs ==>
      EndAll(procs, todo, code)[k] == if k in todo then Ended(procs[k], code) else procs[k]
    decreases |todo|
  {
    if todo != [] {
      assert todo == [todo[0]] + todo[1..];
      EndAllMeaning(if todo[0] in procs then procs[todo[0] := Ended(procs[todo[0]], code)] else procs, todo[1..], code);
    }
  }

  lemma EndAllEndsGroup(t: Table, g: int, code: int)
    ensures t.(procs := EndAll(t.procs, Sorted(Members(t.procs, g)), code)) == GroupsEnded(t, {g}, code)
  {
    hide EndAll, Sorted;
    var tids := Sorted(Members(t.procs, g));
    EndAllMeaning(t.procs, tids, code);
    assert forall k :: k in t.procs ==> (k in tids <==> t.procs[k].tgid in {g});
    var ended := EndAll(t.procs, tids, code);
    var result := GroupsEnded(t, {g}, code).procs;
    assert ended.Keys == result.Keys;
    assert forall k :: k in result ==> ended[k] == result[k];
    assert ended == result;
  }

  function AdoptOne(procs: map<int, Proc>, tid: int, g: int, init: int): map<int, Proc>
  {
    if tid in procs && Orphaned(procs[tid], g) then procs[tid := procs[tid].(parent := Some(init))] else procs
  }

  function AdoptAll(procs: map<int, Proc>, todo: seq<int>, g: int, init: int): map<int, Proc>
    decreases |todo|
  {
    if todo == [] then procs
    else AdoptAll(AdoptOne(procs, todo[0], g, init), todo[1..], g, init)
  }

  lemma {:induction false} AdoptAllMeaning(procs: map<int, Proc>, todo: seq<int>, g: int, init: int)
    requires Ascending(todo)
    ensures AdoptAll(procs, todo, g, init).Keys == procs.Keys
    ensures forall k :: k in procs ==>
      AdoptAll(procs, todo, g, init)[k] ==
        (if k in todo && Orphaned(procs[k], g) then procs[k].(parent := Some(init)) else procs[k])
    decreases |todo|
  {
    if todo != [] {
      assert todo == [todo[0]] + todo[1..];
      assert todo[0] !in todo[1..];
      AdoptAllMeaning(AdoptOne(procs, todo[0], g, init), todo[1..], g, init);
    }
  }

  lemma AdoptAllReparents(procs: map<int, Proc>, g: int)
    ensures AdoptAll(procs, Sorted(procs.Keys), g, Adopter(procs)) == Reparented(procs, g)
  {
    hide AdoptAll, Sorted, Adopter;
    AdoptAllMeaning(procs, Sorted(procs.Keys), g, Adopter(procs));
  }

  /** The first element of a key walk that lies in `s` is the least of `s`. */
  lemma FirstIsLeast(keys: set<int>, s: set<int>, i: nat)
    requires s <= keys && i < |Sorted(keys)| && Sorted(keys)[i] in s
    requires forall j :: 0 <= j < i ==> Sorted(keys)[j] !in s
    ensures s != {} && Least(s) == Sorted(keys)[i]
  {
    hide Sorted;
    var walk := Sorted(keys);
    var x := Least(s);
    assert x in walk;
    var k :| 0 <= k < |walk| && walk[k] == x;
    assert walk[i] >= x;
    assert i <= k;
  }

  lemma NoneMeansEmpty(keys: set<int>, s: set<int>)
    requires s <= keys
    requires forall j :: 0 <= j < |Sorted(keys)| ==> Sorted(keys)[j] !in s
    ensures s == {}
  {
    hide Sorted;
    assert forall x :: x in Sorted(keys) ==> x !in s;
    assert forall x :: x in keys ==> x in Sorted(keys);
  }

  ghost predicate FirstParentless(procs: map<int, Proc>, tid: int)
  {
    && tid in procs && procs[tid].parent.None?
    && forall other :: other in procs && procs[other].parent.None? ==> tid <= other
  }

  // ----- wait status

  const CORE_SIGNALS := {3, 4, 6, 7, 8, 11, 24, 25, 31}

  function SignalStatus(sig: int): int { sig % 128 + if sig in CORE_SIGNALS then 128 else 0 }

  /** A 32-bit left shift by eight. */
  function Shift8(code: int): int { (code * 0x100 + 0x8000_0000) % 0x1_0000_0000 - 0x8000_0000 }

  function WaitStatus(code: int): int { if code < 0 then SignalStatus(-code) else Shift8(code) }

  /** The code a wait reports: the one recorded at the group's own number, or 0 when that thread is gone. */
  function ReportedCode(procs: map<int, Proc>, g: int): int
  {
    if g in procs && procs[g].code.Some? then procs[g].code.value else 0
  }

  /** The parent decodes what the child passed: the low byte of an exit code, or the signal and core flag. */
  lemma StatusDecodes(code: int)
    requires -64 <= code < 0x8000_0000
    ensures code >= 0 ==> WaitStatus(code) % 128 == 0 && WaitStatus(code) / 256 % 256 == code % 256
    ensures code < 0 ==> WaitStatus(code) % 128 == -code && (WaitStatus(code) / 128 % 2 == 1 <==> -code in CORE_SIGNALS)
    ensures code < 0 ==> 0 < WaitStatus(code) < 256
  {
    if code >= 0 {
      ShiftDecodes(code);
    }
  }

  lemma ShiftDecodes(code: int)
    requires 0 <= code < 0x8000_0000
    ensures Shift8(code) % 128 == 0 && Shift8(code) / 256 % 256 == code % 256
  {
    var q := (code * 0x100 + 0x8000_0000) / 0x1_0000_0000;
    ShiftIsMultiple(code, q);
    TimesByte(code - q * 0x1_0000 * 256);
    SameByte(code, q * 0x1_0000);
  }

  lemma ShiftIsMultiple(code: int, q: int)
    requires q == (code * 0x100 + 0x8000_0000) / 0x1_0000_0000
    ensures Shift8(code) == (code - q * 0x1_0000 * 256) * 256
  {
    var x := code * 0x100 + 0x8000_0000;
    assert x % 0x1_0000_0000 == x - q * 0x1_0000_0000;
  }

  lemma TimesByte(n: int)
    ensures n * 256 % 128 == 0 && n * 256 / 256 == n
  {
  }

  lemma SameByte(code: int, m: int)
    ensures (code - m * 256) % 256 == code % 256
  {
  }

  /** After a group exit the wait reports the code exactly when the group's first thread is still in the
      table, or the code is zero; image replacement by another thread removes it. */
  lemma ReportedIff(t: Table, g: int, code: int)
    requires Forest(t) && Present(t, g)
    ensures ReportedCode(GroupsEnded(t, {g}, code).procs, g) == code <==> code == 0 || g in t.procs
  {
  }

  /** When a thread exits its group goes on exactly while another of its threads lives, and then no other thread
      changes. When it was the last, every thread of the group has the code, and the wait reports it under the same
      condition. */
  lemma ThreadExitReports(t: Table, tid: int, code: int)
    requires Forest(t) && tid in t.procs
    ensures var g, u := t.procs[tid].tgid, ThreadEnded(t, tid, code);
      && u.next == t.next && u.procs.Keys == t.procs.Keys && u.procs[tid] == Ended(t.procs[tid], code)
      && (LiveGroup(u, g) <==> exists a :: a in t.procs && a != tid && t.procs[a].tgid == g && t.procs[a].live)
      && (LiveGroup(u, g) ==> forall a :: a in t.procs && a != tid ==> u.procs[a] == t.procs[a])
      && (!LiveGroup(u, g) ==> forall a :: a in t.procs ==>
           u.procs[a] == if t.procs[a].tgid == g then Ended(t.procs[a], code) else t.procs[a])
      && (!LiveGroup(u, g) ==> (ReportedCode(u.procs, g) == code <==> code == 0 || g in t.procs))
  {
    hide ReportedCode;
    var g, u := t.procs[tid].tgid, ThreadEnded(t, tid, code);
    assert Present(t, g);
    ReportedIff(t, g, code);
    hide ForestAt;
    if OthersLive(t.procs, tid) {
      var a :| a in t.procs && a != tid && t.procs[a].tgid == g && t.procs[a].live;
      assert a in u.procs && u.procs[a] == t.procs[a];
    }
  }

  /** A fork, the child's exit and the parent's wait for it: the wait finds the child by its identifier or by the
      parent's process group, reports its code, and leaves the table as it was but for the identifier used up. */
  lemma ForkExitWait(t: Table, tid: int, code: int)
    requires Forest(t) && tid in t.procs
    ensures var c, p := t.next, t.procs[tid];
      var u := GroupsEnded(Forked(t, tid), {c}, code);
      && FirstCollectable(u, c, p.tgid, Pid(c))
      && Collectable(u, c, p.tgid, Pgid(p.pgid)) && Collectable(u, c, p.tgid, Any)
      && ReportedCode(u.procs, c) == code
      && Waited(u, p.tgid, Pid(c)) == Table(t.procs, t.next + 1)
  {
    var c, p := t.next, t.procs[tid];
    var u := GroupsEnded(Forked(t, tid), {c}, code);
    ForkedEnded(t, tid, code);
    hide Forest, Zombies, GroupsEnded, Forked, Adopter, Reaped;
    ZombiesAre(u, p.tgid, Pid(c));
    assert FirstCollectable(u, c, p.tgid, Pid(c));
    ReapedIs(u, c);
    assert Waited(u, p.tgid, Pid(c)) == Reaped(u, c);
    ReapUndoes(t, u, Reaped(u, c), c, Adopter(u.procs));
  }

  lemma ForkedEnded(t: Table, tid: int, code: int)
    requires Forest(t) && tid in t.procs
    ensures var c, p, u := t.next, t.procs[tid], GroupsEnded(Forked(t, tid), {t.next}, code);
      && u.next == t.next + 1 && c !in t.procs && u.procs.Keys == t.procs.Keys + {c}
      && u.procs[c] == Proc(c, p.pgid, Some(p.tgid), false, Some(code))
      && (forall a :: a in t.procs ==>
           u.procs[a] == t.procs[a] && t.procs[a].tgid != c && t.procs[a].parent != Some(c))
  {
  }

  lemma ReapUndoes(t: Table, u: Table, v: Table, c: int, adopter: int)
    requires ReapedTo(u, v, c, adopter) && c !in t.procs && u.procs.Keys == t.procs.Keys + {c} && u.procs[c].tgid == c
    requires forall a :: a in t.procs ==>
      u.procs[a] == t.procs[a] && t.procs[a].tgid != c && t.procs[a].parent != Some(c)
    ensures v == Table(t.procs, u.next)
  {
    forall a
      ensures a in v.procs <==> a in t.procs
      ensures a in t.procs ==> v.procs[a] == t.procs[a]
    {
      assert a in u.procs <==> a in t.procs || a == c;
    }
    assert v.procs.Keys == t.procs.Keys;
    assert v.procs == t.procs;
  }

  /** It happens: a child's second thread replaces the image, the child exits with code 7, and its parent is told 0. */
  lemma ExecLosesCode()
    ensures exists ops: seq<Op>, t: Table ::
      && Reaches(Empty(), ops, t) && Present(t, 2)
      && ReportedCode(GroupsEnded(t, {2}, 7).procs, 2) == 0
  {
    var t0 := Empty();
    var root := Proc(1, 1, None, true, None);
    var child := Proc(2, 1, Some(1), true, None);
    var t1 := Table(map[1 := root], 2);
    var t2 := Table(map[1 := root, 2 := child], 3);
    var t3 := Table(map[1 := root, 2 := child, 3 := child], 4);
    var t4 := Table(map[1 := root, 3 := child], 4);
    assert Step(t0, Spawn(None)) == t1;
    assert Step(t1, Fork(1)) == t2;
    assert Step(t2, Clone(2)) == t3;
    assert Step(t3, Exec(3)) == t4;
    assert 3 in t4.procs && t4.procs[3].tgid == 2;
    OneStep(t3, Exec(3), [], t4);
    OneStep(t2, Clone(2), [Exec(3)], t4);
    OneStep(t1, Fork(1), [Clone(2), Exec(3)], t4);
    OneStep(t0, Spawn(None), [Fork(1), Clone(2), Exec(3)], t4);
  }

  // ----- the children index and the breadth-first walk

  function OneKid(proc: Proc, p: int): seq<int>
  {
    if proc.live && proc.parent == Some(p) && proc.tgid != p then [proc.tgid] else []
  }

  /** The children the key walk `todo` adds under `p`. */
  function KidsOf(procs: map<int, Proc>, todo: seq<int>, p: int): seq<int>
    requires forall i :: 0 <= i < |todo| ==> todo[i] in procs
  {
    if todo == [] then []
    else
      OneKid(procs[todo[0]], p) + KidsOf(procs, todo[1..], p)
  }

  predicate IsKid(procs: map<int, Proc>, tid: int, p: int, g: int)
    requires tid in procs
  {
    procs[tid].live && procs[tid].parent == Some(p) && procs[tid].tgid != p && procs[tid].tgid == g
  }

  lemma {:induction false} KidsOfMeaning(procs: map<int, Proc>, todo: seq<int>, p: int, g: int)
    requires forall i :: 0 <= i < |todo| ==> todo[i] in procs
    ensures g in KidsOf(procs, todo, p) <==> exists i :: 0 <= i < |todo| && IsKid(procs, todo[i], p, g)
  {
    if todo != [] {
      KidsOfMeaning(procs, todo[1..], p, g);
      assert forall i :: 1 <= i < |todo| ==> todo[i] == todo[1..][i - 1];
      assert (exists i :: 0 <= i < |todo| && IsKid(procs, todo[i], p, g)) <==>
        IsKid(procs, todo[0], p, g) || exists i :: 0 <= i < |todo[1..]| && IsKid(procs, todo[1..][i], p, g);
    }
  }

  lemma KeysInRange(procs: map<int, Proc>)
    ensures forall i :: 0 <= i < |Sorted(procs.Keys)| ==> Sorted(procs.Keys)[i] in procs
  {
    hide Sorted;
    assert forall i :: 0 <= i < |Sorted(procs.Keys)| ==> Sorted(procs.Keys)[i] in Sorted(procs.Keys);
  }

  lemma KidsAreEdges(t: Table, p: int, g: int)
    requires forall i :: 0 <= i < |Sorted(t.procs.Keys)| ==> Sorted(t.procs.Keys)[i] in t.procs
    ensures g in KidsOf(t.procs, Sorted(t.procs.Keys), p) <==> Edge(t, p, g)
  {
    hide Sorted, KidsOf;
    var keys := Sorted(t.procs.Keys);
    KidsOfMeaning(t.procs, keys, p, g);
    if Edge(t, p, g) {
      var tid :| tid in t.procs && t.procs[tid].live && t.procs[tid].tgid == g && t.procs[tid].parent == Some(p);
      assert tid in keys;
      var i :| 0 <= i < |keys| && keys[i] == tid;
      assert IsKid(t.procs, keys[i], p, g);
    }
  }

  function Kids(children: map<int, seq<int>>, p: int): seq<int>
  {
    if p in children then children[p] else []
  }

  /** After `i` steps of the key walk, the index holds what the rest of the walk does not add. */
  ghost predicate Indexed(procs: map<int, Proc>, keys: seq<int>, i: int, children: map<int, seq<int>>)
    requires 0 <= i <= |keys|
    requires forall j :: 0 <= j < |keys| ==> keys[j] in procs
  {
    forall p :: Kids(children, p) + KidsOf(procs, keys[i..], p) == KidsOf(procs, keys, p)
  }

  ghost predicate LiveSoFar(procs: map<int, Proc>, keys: seq<int>, i: int, root: int)
    requires 0 <= i <= |keys|
    requires forall j :: 0 <= j < |keys| ==> keys[j] in procs
  {
    exists j :: 0 <= j < i && procs[keys[j]].live && procs[keys[j]].tgid == root
  }

  lemma IndexStart(procs: map<int, Proc>, keys: seq<int>, root: int)
    requires forall j :: 0 <= j < |keys| ==> keys[j] in procs
    ensures Indexed(procs, keys, 0, map[]) && !LiveSoFar(procs, keys, 0, root)
  {
    assert keys[0..] == keys;
  }

  function WithKid(children: map<int, seq<int>>, proc: Proc): map<int, seq<int>>
  {
    if proc.live && proc.parent.Some? && proc.tgid != proc.parent.value
    then children[proc.parent.value := Kids(children, proc.parent.value) + [proc.tgid]]
    else children
  }

  lemma KidsOfStep(procs: map<int, Proc>, keys: seq<int>, i: int, p: int)
    requires 0 <= i < |keys|
    requires forall j :: 0 <= j < |keys| ==> keys[j] in procs
    ensures KidsOf(procs, keys[i..], p) == OneKid(procs[keys[i]], p) + KidsOf(procs, keys[i + 1..], p)
  {
    assert keys[i..][0] == keys[i] && keys[i..][1..] == keys[i + 1..];
  }

  lemma WithKidStep(children: map<int, seq<int>>, proc: Proc, p: int)
    ensures Kids(WithKid(children, proc), p) == Kids(children, p) + OneKid(proc, p)
  {
  }

  lemma IndexStep(procs: map<int, Proc>, keys: seq<int>, i: int, children: map<int, seq<int>>, root: int)
    requires 0 <= i < |keys|
    requires forall j :: 0 <= j < |keys| ==> keys[j] in procs
    requires Indexed(procs, keys, i, children)
    ensures Indexed(procs, keys, i + 1, WithKid(children, procs[keys[i]]))
    ensures LiveSoFar(procs, keys, i + 1, root) <==>
      LiveSoFar(procs, keys, i, root) || (procs[keys[i]].live && procs[keys[i]].tgid == root)
  {
    hide KidsOf, Kids, WithKid, OneKid;
    var proc := procs[keys[i]];
    forall p
      ensures Kids(WithKid(children, proc), p) + KidsOf(procs, keys[i + 1..], p) == KidsOf(procs, keys, p)
    {
      KidsOfStep(procs, keys, i, p);
      WithKidStep(children, proc, p);
      assert Kids(children, p) + KidsOf(procs, keys[i..], p) == KidsOf(procs, keys, p);
    }
  }

  lemma IndexDone(t: Table, children: map<int, seq<int>>, root: int)
    requires forall j :: 0 <= j < |Sorted(t.procs.Keys)| ==> Sorted(t.procs.Keys)[j] in t.procs
    requires Indexed(t.procs, Sorted(t.procs.Keys), |Sorted(t.procs.Keys)|, children)
    ensures LiveSoFar(t.procs, Sorted(t.procs.Keys), |Sorted(t.procs.Keys)|, root) <==> LiveGroup(t, root)
    ensures forall p, g :: g in Kids(children, p) <==> Edge(t, p, g)
  {
    hide Sorted, Kids;
    var keys := Sorted(t.procs.Keys);
    assert keys[|keys|..] == [];
    if LiveGroup(t, root) {
      var tid :| tid in t.procs && t.procs[tid].tgid == root && t.procs[tid].live;
      assert tid in keys;
    }
    forall p, g
      ensures g in Kids(children, p) <==> Edge(t, p, g)
    {
      assert Kids(children, p) + [] == KidsOf(t.procs, keys, p);
      KidsAreEdges(t, p, g);
    }
  }

  ghost predicate FoundFrom(t: Table, out: seq<int>, g: int)
  {
    exists j :: 0 <= j < |out| && Edge(t, out[j], g)
  }

  /** The walk half way: `out` is listed, `queue` is found but not listed. */
  ghost predicate Walking(t: Table, root: int, queue: seq<int>, out: seq<int>)
  {
    && (forall i, j :: 0 <= i < j < |out| ==> out[i] != out[j])
    && (forall i :: 0 <= i < |out| ==> out[i] in Subtree(t, root))
    && (forall i :: 0 <= i < |queue| ==> queue[i] in Subtree(t, root))
    && (forall i, g :: 0 <= i < |out| && Edge(t, out[i], g) ==> g in out || g in queue)
    && (if out == [] then queue == [root] else out[0] == root)
    && (forall i :: 0 < i < |out| ==> Discovered(t, out, i))
    && (out != [] ==> forall i :: 0 <= i < |queue| ==> FoundFrom(t, out, queue[i]))
  }

  lemma RootInSubtree(t: Table, root: int)
    requires LiveGroup(t, root)
    ensures root in Subtree(t, root)
  {
    assert Chain(t, [root]);
    assert Descends(t, root, root);
    DescendantIsLive(t, root, root);
  }

  lemma SkipStep(t: Table, root: int, queue: seq<int>, out: seq<int>)
    requires Walking(t, root, queue, out) && queue != [] && queue[0] in out
    ensures Walking(t, root, queue[1..], out)
  {
    hide Subtree, Edge, Discovered, FoundFrom;
    assert queue == [queue[0]] + queue[1..];
    assert forall g :: g in queue ==> g == queue[0] || g in queue[1..];
  }

  lemma ChildInSubtree(t: Table, root: int, p: int, g: int)
    requires p in Subtree(t, root) && Edge(t, p, g)
    ensures g in Subtree(t, root)
  {
    DescendsExtends(t, root, p, g);
    DescendantIsLive(t, root, g);
  }

  lemma DiscoveredGrows(t: Table, out: seq<int>, c: int, i: int)
    requires 0 <= i < |out|
    ensures Discovered(t, out, i) ==> Discovered(t, out + [c], i)
  {
    if Discovered(t, out, i) {
      var j :| 0 <= j < i && Edge(t, out[j], out[i]);
      assert Edge(t, (out + [c])[j], (out + [c])[i]);
    }
  }

  lemma FoundIsDiscovered(t: Table, out: seq<int>, c: int)
    requires FoundFrom(t, out, c)
    ensures Discovered(t, out + [c], |out|)
  {
    var j :| 0 <= j < |out| && Edge(t, out[j], c);
    assert Edge(t, (out + [c])[j], (out + [c])[|out|]);
  }

  lemma FoundGrows(t: Table, out: seq<int>, c: int, g: int)
    ensures FoundFrom(t, out, g) || Edge(t, c, g) ==> FoundFrom(t, out + [c], g)
  {
    if FoundFrom(t, out, g) {
      var j :| 0 <= j < |out| && Edge(t, out[j], g);
      assert Edge(t, (out + [c])[j], g);
    }
    if Edge(t, c, g) {
      assert Edge(t, (out + [c])[|out|], g);
    }
  }

  lemma VisitStep(t: Table, root: int, queue: seq<int>, out: seq<int>, kids: seq<int>)
    requires Walking(t, root, queue, out) && queue != [] && queue[0] !in out
    requires forall g :: g in kids <==> Edge(t, queue[0], g)
    ensures Walking(t, root, queue[1..] + kids, out + [queue[0]])
  {
    hide Subtree, Edge, Discovered, FoundFrom;
    var c := queue[0];
    var queue', out' := queue[1..] + kids, out + [c];
    assert queue == [c] + queue[1..];
    forall i | 0 <= i < |queue'|
      ensures queue'[i] in Subtree(t, root) && FoundFrom(t, out', queue'[i])
    {
      FoundGrows(t, out, c, queue'[i]);
      if i < |queue| - 1 {
        assert queue'[i] == queue[i + 1];
      } else {
        assert queue'[i] == kids[i - (|queue| - 1)];
        assert queue'[i] in kids;
        ChildInSubtree(t, root, c, queue'[i]);
      }
    }
    forall i | 0 < i < |out'|
      ensures Discovered(t, out', i)
    {
      if i < |out| {
        DiscoveredGrows(t, out, c, i);
      } else {
        assert FoundFrom(t, out, queue[0]);
        FoundIsDiscovered(t, out, c);
      }
    }
    forall i, g | 0 <= i < |out'| && Edge(t, out'[i], g)
      ensures g in out' || g in queue'
    {
      if i < |out| {
        assert Edge(t, out[i], g);
        assert g in queue ==> g == c || g in queue[1..];
        assert c == out'[|out|];
      } else {
        assert g in kids;
      }
    }
  }

  lemma WalkDone(t: Table, root: int, out: seq<int>)
    requires Walking(t, root, [], out)
    ensures Lists(t, root, out)
  {
    hide Edge, Discovered, FoundFrom;
    var s := Elems(out);
    forall g | g in Subtree(t, root)
      ensures g in out
    {
      var path :| Chain(t, path) && path[0] == root && path[|path| - 1] == g;
      assert out[0] in out;
      forall p, k | p in s && Edge(t, p, k)
        ensures k in s
      {
        var i :| 0 <= i < |out| && out[i] == p;
        assert Edge(t, out[i], k);
      }
      ClosedHoldsDescendants(t, s, path);
    }
    assert forall g :: g in out ==> g in Subtree(t, root);
  }

  lemma EndMore(t: Table, groups: set<int>, g: int, code: int)
    ensures GroupsEnded(GroupsEnded(t, groups, code), {g}, code) == GroupsEnded(t, groups + {g}, code)
  {
    var u := GroupsEnded(GroupsEnded(t, groups, code), {g}, code);
    var v := GroupsEnded(t, groups + {g}, code);
    assert u.procs.Keys == v.procs.Keys;
    assert forall k :: k in v.procs ==> u.procs[k] == v.procs[k];
    assert u.procs == v.procs;
  }

  /** The groups of the exits, last first. */
  function Backwards(exits: seq<GroupExit>): seq<int>
  {
    seq(|exits|, i requires 0 <= i < |exits| => exits[|exits| - 1 - i].tgid)
  }

  class ProcessTable {
    var procs: map<int, Proc>
    var next: int
    var current: int

    function View(): Table
      reads this
    {
      Table(procs, next)
    }

    constructor ()
      ensures View() == Table(map[], 1) && current == 0
    {
      procs, next, current := map[], 1, 0;
    }

    method NextId() returns (id: int)
      modifies this`next
      ensures id == old(next) && next == old(next) + 1
    {
      id := next;
      next := next + 1;
    }

    method Spawn(parent: Option<int>) returns (pid: int)
      modifies this
      ensures pid == old(next) && View() == Spawned(old(View()), parent)
      ensures current == if old(current) == 0 then pid else old(current)
    {
      pid := NextId();
      procs := procs[pid := Proc(pid, if parent.Some? then parent.value else pid, parent, true, None)];
      if current == 0 {
        current := pid;
      }
    }

    /** `refusal` is the error of the clone budget or of copying the address space, if either fails; a
        failed fork still uses up an identifier. */
    method ForkCurrent(refusal: Option<int>) returns (r: Result<int>)
      modifies this
      ensures current == old(current)
      ensures old(current) !in old(procs) ==> r == Err(EBADF)
      ensures old(current) in old(procs) && refusal.Some? ==> r == Err(refusal.value)
      ensures r.Err? ==> View() == old(View()).(next := old(next) + 1)
      ensures r.Ok? ==>
        old(current) in old(procs) && r.value == old(next) && View() == Forked(old(View()), old(current))
    {
      var pid := NextId();
      if current !in procs {
        return Err(EBADF);
      }
      if refusal.Some? {
        return Err(refusal.value);
      }
      procs := procs[pid := Proc(pid, procs[current].pgid, Some(procs[current].tgid), true, None)];
      r := Ok(pid);
    }

    method CloneCurrent() returns (r: Result<int>)
      modifies this
      ensures current == old(current)
      ensures old(current) !in old(procs) ==> r == Err(EBADF) && View() == old(View()).(next := old(next) + 1)
      ensures old(current) in old(procs) ==> r == Ok(old(next)) && View() == Cloned(old(View()), old(current))
    {
      var tid := NextId();
      if current !in procs {
        return Err(EBADF);
      }
      procs := procs[tid := procs[current].(live := true, code := None)];
      r := Ok(tid);
    }

    method RemoveThreads(tids: set<int>)
      modifies this`procs
      ensures procs == old(procs) - tids
    {
      hide Sorted, Elems;
      var todo := Sorted(tids);
      ElemsSorted(tids);
      while todo != []
        invariant procs - Elems(todo) == old(procs) - tids
        decreases |todo|
      {
        RemoveStep(procs, todo);
        procs := procs - {todo[0]};
        todo := todo[1..];
      }
      RemoveNone(procs);
    }

    method ExecCurrent() returns (r: Result<()>)
      modifies this
      ensures current == old(current)
      ensures old(current) !in old(procs) ==> r == Err(EBADF) && View() == old(View())
      ensures old(current) in old(procs) ==> r == Ok(()) && View() == Execed(old(View()), old(current))
    {
      if current !in procs {
        return Err(EBADF);
      }
      RemoveThreads(Members(procs, procs[current].tgid) - {current});
      procs := procs[current := procs[current].(live := true, code := None)];
      r := Ok(());
    }

    method EndGroup(g: int, code: int)
      modifies this`procs
      ensures View() == GroupsEnded(old(View()), {g}, code)
    {
      hide GroupsEnded, Sorted, Members;
      ghost var tids := Sorted(Members(procs, g));
      var todo := Sorted(Members(procs, g));
      while todo != []
        invariant EndAll(procs, todo, code) == EndAll(old(procs), tids, code)
        decreases |todo|
      {
        if todo[0] in procs {
          procs := procs[todo[0] := Ended(procs[todo[0]], code)];
        }
        todo := todo[1..];
      }
      EndAllEndsGroup(old(View()), g, code);
    }

    method AnyOtherLive(tid: int) returns (found: bool)
      requires tid in procs
      ensures found == OthersLive(procs, tid)
    {
      hide Sorted;
      KeysInRange(procs);
      var keys := Sorted(procs.Keys);
      var i := 0;
      while i < |keys|
        invariant 0 <= i <= |keys|
        invariant forall j :: 0 <= j < i ==>
          !(keys[j] != tid && procs[keys[j]].tgid == procs[tid].tgid && procs[keys[j]].live)
      {
        if keys[i] != tid && procs[keys[i]].tgid == procs[tid].tgid && procs[keys[i]].live {
          return true;
        }
        i := i + 1;
      }
      assert forall k :: k in procs ==> k in keys;
      found := false;
    }

    method ExitThreadCurrent(code: int) returns (r: Result<ThreadExit>)
      modifies this
      ensures current == old(current)
      ensures old(current) !in old(procs) ==> r == Err(EBADF) && View() == old(View())
      ensures old(current) in old(procs) ==> View() == ThreadEnded(old(View()), old(current), code)
      ensures old(current) in old(procs) ==>
        var p := old(procs)[old(current)];
        r == Ok(ThreadExit(old(current), p.tgid, p.parent, !LiveGroup(View(), p.tgid)))
    {
      if current !in procs {
        return Err(EBADF);
      }
      var p := procs[current];
      procs := procs[current := Ended(p, code)];
      var alive := AnyOtherLive(current);
      assert alive == OthersLive(old(procs), current) by {
        assert forall k :: k != current && k in procs ==> k in old(procs) && procs[k] == old(procs)[k];
        assert forall k :: k != current && k in old(procs) ==> k in procs;
      }
      if !alive {
        EndGroup(p.tgid, code);
        EndTwice(old(View()), current, code);
      }
      GroupGoesOn(old(View()), current, code);
      r := Ok(ThreadExit(current, p.tgid, p.parent, !alive));
    }

    method ExitGroupCurrent(code: int) returns (r: Result<ThreadExit>)
      modifies this
      ensures current == old(current)
      ensures old(current) !in old(procs) ==> r == Err(EBADF) && View() == old(View())
      ensures old(current) in old(procs) ==>
        var p := old(procs)[old(current)];
        r == Ok(ThreadExit(old(current), p.tgid, p.parent, true)) && View() == GroupsEnded(old(View()), {p.tgid}, code)
    {
      if current !in procs {
        return Err(EBADF);
      }
      var p := procs[current];
      EndGroup(p.tgid, code);
      r := Ok(ThreadExit(current, p.tgid, p.parent, true));
    }

    /** The adopter is found by walking the threads in key order. */
    method FindAdopter() returns (init: int)
      ensures init == Adopter(procs)
      ensures (forall tid :: tid in procs ==> procs[tid].parent.Some?) ==> init == 1
      ensures forall tid :: FirstParentless(procs, tid) ==> init == procs[tid].tgid
    {
      hide Sorted;
      KeysInRange(procs);
      var keys := Sorted(procs.Keys);
      var i := 0;
      while i < |keys|
        invariant 0 <= i <= |keys|
        invariant forall j :: 0 <= j < i ==> keys[j] !in Parentless(procs)
      {
        if procs[keys[i]].parent.None? {
          FirstIsLeast(procs.Keys, Parentless(procs), i);
          return procs[keys[i]].tgid;
        }
        i := i + 1;
      }
      NoneMeansEmpty(procs.Keys, Parentless(procs));
      init := 1;
    }

    method Reap(g: int)
      modifies this`procs
      ensures View() == Reaped(old(View()), g)
    {
      hide Sorted, Adopter, Members, Reparented;
      var init := FindAdopter();
      ghost var keys := Sorted(procs.Keys);
      var todo := Sorted(procs.Keys);
      while todo != []
        invariant AdoptAll(procs, todo, g, init) == AdoptAll(old(procs), keys, g, init)
        decreases |todo|
      {
        if todo[0] in procs && Orphaned(procs[todo[0]], g) {
          procs := procs[todo[0] := procs[todo[0]].(parent := Some(init))];
        }
        todo := todo[1..];
      }
      AdoptAllReparents(old(procs), g);
      RemoveThreads(Members(procs, g));
    }

    /** The first exited child in key order that the selector picks. */
    method FindZombie(parent: int, sel: Selector) returns (found: Option<int>)
      ensures found == if Zombies(procs, parent, sel) == {} then None else Some(Least(Zombies(procs, parent, sel)))
    {
      hide Sorted;
      KeysInRange(procs);
      var keys := Sorted(procs.Keys);
      var i := 0;
      while i < |keys|
        invariant 0 <= i <= |keys|
        invariant forall j :: 0 <= j < i ==> keys[j] !in Zombies(procs, parent, sel)
      {
        var p := procs[keys[i]];
        if p.parent == Some(parent) && !p.live && Selects(sel, p) {
          FirstIsLeast(procs.Keys, Zombies(procs, parent, sel), i);
          return Some(keys[i]);
        }
        i := i + 1;
      }
      NoneMeansEmpty(procs.Keys, Zombies(procs, parent, sel));
      found := None;
    }

    predicate HasChild(parent: int, sel: Selector)
      reads this
    {
      exists tid :: tid in procs && procs[tid].parent == Some(parent) && Selects(sel, procs[tid])
    }

    /** Collect an exited child: its group and status; (0, 0) while children are still running; ECHILD when
        there are none. */
    method WaitChild(parent: int, sel: Selector) returns (r: Result<(int, int)>)
      modifies this`procs
      ensures View() == Waited(old(View()), parent, sel)
      ensures forall z :: FirstCollectable(old(View()), z, parent, sel) ==>
        r == Ok((old(procs)[z].tgid, WaitStatus(ReportedCode(old(procs), old(procs)[z].tgid))))
      ensures (forall z :: !Collectable(old(View()), z, parent, sel)) ==>
        && View() == old(View())
        && r == if exists tid :: Child(old(View()), tid, parent, sel) then Ok((0, 0)) else Err(ECHILD)
    {
      hide Reaped, FirstCollectable, Zombies, WaitStatus, ReportedCode;
      ZombiesAre(View(), parent, sel);
      var found := FindZombie(parent, sel);
      if found.None? {
        assert forall tid :: Child(View(), tid, parent, sel) <==>
          tid in procs && procs[tid].parent == Some(parent) && Selects(sel, procs[tid]);
        return if HasChild(parent, sel) then Ok((0, 0)) else Err(ECHILD);
      }
      var g := procs[found.value].tgid;
      var status := WaitStatus(ReportedCode(procs, g));
      Reap(g);
      r := Ok((g, status));
    }

    /** The index from each group to the groups of its live children, with one pass in key order. */
    method ChildIndex(root: int) returns (children: map<int, seq<int>>, hasRoot: bool)
      ensures hasRoot <==> LiveGroup(View(), root)
      ensures forall p, g :: g in Kids(children, p) <==> Edge(View(), p, g)
    {
      hide Sorted, Indexed, Kids, Edge, LiveGroup, LiveSoFar;
      KeysInRange(procs);
      var keys := Sorted(procs.Keys);
      children, hasRoot := map[], false;
      var i := 0;
      IndexStart(procs, keys, root);
      while i < |keys|
        invariant 0 <= i <= |keys|
        invariant hasRoot <==> LiveSoFar(procs, keys, i, root)
        invariant Indexed(procs, keys, i, children)
      {
        var proc := procs[keys[i]];
        IndexStep(procs, keys, i, children, root);
        if proc.live {
          if proc.tgid == root {
            hasRoot := true;
          }
          if proc.parent.Some? && proc.tgid != proc.parent.value {
            children := children[proc.parent.value := Kids(children, proc.parent.value) + [proc.tgid]];
          }
        }
        i := i + 1;
      }
      IndexDone(View(), children, root);
    }

    /** The live subtree of a group, breadth first.  The walk ends on every table, cyclic ones included,
        because a listed group is never expanded again. */
    method DescendantGroups(root: int) returns (out: seq<int>)
      ensures Lists(View(), root, out)
    {
      hide Subtree, Edge, Discovered, FoundFrom;
      var children, hasRoot := ChildIndex(root);
      if !hasRoot {
        NoSubtree(View(), root);
        return [];
      }
      RootInSubtree(View(), root);
      var queue := [root];
      out := [];
      while queue != []
        invariant Walking(View(), root, queue, out)
        decreases Groups(View()) - Elems(out), |queue|
      {
        var c := queue[0];
        if c in out {
          SkipStep(View(), root, queue, out);
          queue := queue[1..];
        } else {
          var kids := Kids(children, c);
          VisitStep(View(), root, queue, out, kids);
          ListingShrinks(View(), root, out, c);
          ghost var rest := queue[1..];
          queue := queue[1..];
          out := out + [c];
          var k := 0;
          while k < |kids|
            invariant 0 <= k <= |kids|
            invariant queue == rest + kids[..k]
          {
            queue := queue + [kids[k]];
            k := k + 1;
          }
          assert kids[..k] == kids;
        }
      }
      WalkDone(View(), root, out);
    }

    method ForceExitGroup(g: int, code: int) returns (exit: Option<GroupExit>)
      modifies this`procs
      ensures View() == GroupsEnded(old(View()), {g}, code)
      ensures exit.None? <==> Members(old(procs), g) == {}
      ensures exit.Some? ==> exit.value.tgid == g && ExitRecord(old(View()), exit.value)
    {
      hide GroupsEnded;
      var tids := Sorted(Members(procs, g));
      if tids == [] {
        EmptyGroup(View(), g, code);
        return None;
      }
      FirstOfSorted(Members(procs, g));
      var parent := procs[tids[0]].parent;
      EndGroup(g, code);
      exit := Some(GroupExit(g, tids, parent));
    }

    /** Kill a whole subtree, deepest groups first. */
    method ForceExitSubtree(root: int, code: int) returns (exits: seq<GroupExit>)
      modifies this`procs
      ensures View() == GroupsEnded(old(View()), Subtree(old(View()), root), code)
      ensures Lists(old(View()), root, Backwards(exits))
      ensures forall i :: 0 <= i < |exits| ==> ExitRecord(old(View()), exits[i])
    {
      hide GroupsEnded, Subtree, Discovered, Edge, Sorted, Members, Least, ExitRecord;
      var groups := DescendantGroups(root);
      exits := [];
      var n := |groups|;
      EndNone(View(), code);
      assert groups[n..] == [];
      while n > 0
        invariant 0 <= n <= |groups|
        invariant View() == GroupsEnded(old(View()), Elems(groups[n..]), code)
        invariant |exits| == |groups| - n
        invariant forall i :: 0 <= i < |exits| ==> exits[i].tgid == groups[|groups| - 1 - i]
        invariant forall i :: 0 <= i < |exits| ==> ExitRecord(old(View()), exits[i])
      {
        n := n - 1;
        EndStep(old(View()), groups, n, code);
        ListedHasMembers(old(View()), root, groups, n, Elems(groups[n + 1..]), code);
        ghost var before := View();
        var exit := ForceExitGroup(groups[n], code);
        RecordKept(old(View()), before, Elems(groups[n + 1..]), code, exit.value);
        if exit.Some? {
          exits := exits + [exit.value];
        }
      }
      assert groups[0..] == groups;
      assert Elems(groups) == Subtree(old(View()), root) by {
        ListedElems(old(View()), root, groups);
      }
      assert Backwards(exits) == groups;
    }
  }

  /** The record names the threads of the group in key order and the parent of the first. */
  ghost predicate ExitRecord(t: Table, e: GroupExit)
  {
    && e.tids != [] && Ascending(e.tids)
    && (forall tid :: tid in e.tids <==> tid in t.procs && t.procs[tid].tgid == e.tgid)
    && e.tids[0] in t.procs && e.parent == t.procs[e.tids[0]].parent
  }

  lemma RecordKept(t: Table, u: Table, done: set<int>, code: int, e: GroupExit)
    requires u == GroupsEnded(t, done, code) && ExitRecord(u, e)
    ensures ExitRecord(t, e)
  {
    assert forall tid :: tid in u.procs <==> tid in t.procs;
    assert forall tid :: tid in t.procs ==> u.procs[tid].tgid == t.procs[tid].tgid;
    assert forall tid :: tid in t.procs ==> u.procs[tid].parent == t.procs[tid].parent;
  }

  lemma GroupGoesOn(t: Table, tid: int, code: int)
    requires tid in t.procs
    ensures LiveGroup(ThreadEnded(t, tid, code), t.procs[tid].tgid) <==> OthersLive(t.procs, tid)
  {
    var g, u := t.procs[tid].tgid, ThreadEnded(t, tid, code);
    if OthersLive(t.procs, tid) {
      var a :| a in t.procs && a != tid && t.procs[a].tgid == g && t.procs[a].live;
      assert a in u.procs && u.procs[a] == t.procs[a];
    }
  }

  lemma EndTwice(t: Table, tid: int, code: int)
    requires tid in t.procs
    ensures GroupsEnded(t.(procs := t.procs[tid := Ended(t.procs[tid], code)]), {t.procs[tid].tgid}, code)
      == GroupsEnded(t, {t.procs[tid].tgid}, code)
  {
    var u := GroupsEnded(t.(procs := t.procs[tid := Ended(t.procs[tid], code)]), {t.procs[tid].tgid}, code);
    var v := GroupsEnded(t, {t.procs[tid].tgid}, code);
    assert u.procs.Keys == v.procs.Keys;
    assert forall k :: k in v.procs ==> u.procs[k] == v.procs[k];
    assert u.procs == v.procs;
  }

  lemma NoSubtree(t: Table, root: int)
    requires !LiveGroup(t, root)
    ensures Lists(t, root, [])
  {
  }

  lemma ListingShrinks(t: Table, root: int, out: seq<int>, c: int)
    requires c in Subtree(t, root) && c !in out
    ensures Groups(t) - Elems(out + [c]) < Groups(t) - Elems(out)
  {
    assert c in Groups(t) - Elems(out);
    assert forall x :: x in out + [c] <==> x in out || x == c;
  }

  lemma EmptyGroup(t: Table, g: int, code: int)
    requires Sorted(Members(t.procs, g)) == []
    ensures GroupsEnded(t, {g}, code) == t && Members(t.procs, g) == {}
  {
    assert Members(t.procs, g) == {} by {
      NoneMeansEmpty(Members(t.procs, g), Members(t.procs, g));
    }
    assert forall k :: k in t.procs ==> t.procs[k].tgid != g by {
      assert forall k :: k in t.procs && t.procs[k].tgid == g ==> k in Members(t.procs, g);
    }
    var ended := GroupsEnded(t, {g}, code).procs;
    assert ended.Keys == t.procs.Keys;
    assert forall k :: k in t.procs ==> ended[k] == t.procs[k];
    assert ended == t.procs;
  }

  lemma FirstOfSorted(s: set<int>)
    requires Sorted(s) != []
    ensures s != {} && Sorted(s)[0] == Least(s)
  {
    hide Sorted;
    assert Sorted(s)[0] in Sorted(s);
    FirstIsLeast(s, s, 0);
  }

  lemma EndNone(t: Table, code: int)
    ensures GroupsEnded(t, Elems([]), code) == t
  {
    assert GroupsEnded(t, Elems([]), code).procs == t.procs;
  }

  lemma EndStep(t: Table, groups: seq<int>, n: nat, code: int)
    requires n < |groups|
    ensures GroupsEnded(GroupsEnded(t, Elems(groups[n + 1..]), code), {groups[n]}, code)
      == GroupsEnded(t, Elems(groups[n..]), code)
  {
    EndMore(t, Elems(groups[n + 1..]), groups[n], code);
    ElemsStep(groups[n..]);
    assert groups[n..][1..] == groups[n + 1..];
    assert Elems(groups[n..]) == Elems(groups[n + 1..]) + {groups[n]};
  }

  lemma ListedHasMembers(t: Table, root: int, groups: seq<int>, n: nat, done: set<int>, code: int)
    requires Lists(t, root, groups) && n < |groups|
    ensures Members(GroupsEnded(t, done, code).procs, groups[n]) != {}
  {
    assert groups[n] in groups;
    var tid :| tid in t.procs && t.procs[tid].tgid == groups[n];
    assert tid in Members(GroupsEnded(t, done, code).procs, groups[n]);
  }

  lemma ListedElems(t: Table, root: int, groups: seq<int>)
    requires Lists(t, root, groups)
    ensures Elems(groups) == Subtree(t, root)
  {
    hide Subtree, Discovered;
    assert forall g :: g in Elems(groups) <==> g in groups;
    assert forall g :: g in groups <==> g in Subtree(t, root);
  }
}
