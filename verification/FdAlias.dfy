/** A process's descriptor table.  The kernel keeps one handle per descriptor and emulates shared open
file descriptions with an alias map from each descriptor to a leader.
 */
module FdAlias {
  import opened Wrappers
  import opened Ordered

  const EBADF: int := 9

  /** `node` stands for what a clone of a handle keeps: the file, its path and the pipe end. */
  datatype Handle = Handle(node: nat, offset: nat)

  datatype Table = Table(fds: map<int, Handle>, alias: map<int, int>)

  // ----- the operations as functions of the table

  /** The lowest number from `i` up that is not in `s`. */
  function LowestFrom(s: set<int>, i: int): (fd: int)
    ensures i <= fd && fd !in s && forall j :: i <= j < fd ==> j in s
    decreases |set x | x in s && x >= i|
  {
    if i in s then
      assert (set x | x in s && x >= i + 1) == (set x | x in s && x >= i) - {i};
      LowestFrom(s, i + 1)
    else
      i
  }

  /** Follow the alias map for at most `n` steps. */
  function Hops(alias: map<int, int>, l: int, n: nat): int
    decreases n
  {
    if n == 0 || l !in alias || alias[l] == l then l else Hops(alias, alias[l], n - 1)
  }

  function Leader(t: Table, fd: int): int
  {
    Hops(t.alias, if fd in t.alias then t.alias[fd] else fd, 16)
  }

  function SetOffset(fds: map<int, Handle>, fd: int, offset: nat): map<int, Handle>
    requires fd in fds
  {
    fds[fd := fds[fd].(offset := offset)]
  }

  function Added(t: Table, h: Handle): Table
  {
    var fd := LowestFrom(t.fds.Keys, 0);
    Table(t.fds[fd := h], t.alias[fd := fd])
  }

  /** Every member of the class led by `l` gets the offset. */
  function Broadcast(t: Table, l: int, offset: nat): Table
  {
    t.(fds := map k | k in t.fds ::
      if k == l || (k in t.alias && t.alias[k] == l) then t.fds[k].(offset := offset) else t.fds[k])
  }

  function Followers(alias: map<int, int>, l: int): set<int>
  {
    set k | k in alias && alias[k] == l
  }

  /** The alias map with the class of `fd` handed to its smallest remaining member. */
  function Relead(alias: map<int, int>, fd: int): map<int, int>
  {
    var rest := alias - {fd};
    var heirs := Followers(rest, fd);
    if heirs == {} then rest
    else map k | k in rest :: if rest[k] == fd then Least(heirs) else rest[k]
  }

  function Closed(t: Table, fd: int): Table { Table(t.fds - {fd}, Relead(t.alias, fd)) }

  // ----- what every operation keeps

  /** The leader of a descriptor, one step away; a descriptor without an entry leads itself. */
  function Rep(t: Table, fd: int): int { if fd in t.alias then t.alias[fd] else fd }

  /** Only open descriptors have entries, and leaders are open and lead themselves, with or without an entry: so the
      walk ends after one step. */
  ghost predicate Flat(t: Table)
  {
    && t.alias.Keys <= t.fds.Keys
    && FlatAlias(t.alias)
    && forall fd :: fd in t.alias ==> t.alias[fd] in t.fds
  }

  ghost predicate FlatAlias(alias: map<int, int>)
  {
    forall fd :: fd in alias && alias[fd] in alias ==> alias[alias[fd]] == alias[fd]
  }

  /** All members of a class are at the leader's offset. */
  ghost predicate Agree(t: Table)
  {
    forall fd :: fd in t.fds && Rep(t, fd) in t.fds ==> t.fds[fd].offset == t.fds[Rep(t, fd)].offset
  }

  lemma FlatLeader(t: Table, fd: int)
    requires Flat(t)
    ensures Leader(t, fd) == Rep(t, fd)
    ensures fd in t.fds ==> Rep(t, fd) in t.fds
  {
  }

  /** On any table the walk follows the entries from the descriptor's own until one that leads itself or has none, and
      gives up after sixteen steps. */
  lemma {:induction false} LeaderWalk(t: Table, fd: int, path: seq<int>)
    requires path != [] && path[0] == Rep(t, fd)
    requires forall i :: 0 <= i < |path| - 1 ==> path[i] in t.alias && path[i + 1] == t.alias[path[i]] != path[i]
    requires |path| == 17 || (|path| < 17 && Rep(t, path[|path| - 1]) == path[|path| - 1])
    ensures Leader(t, fd) == path[|path| - 1]
  {
    HopsWalk(t, path, 16);
  }

  lemma {:induction false} HopsWalk(t: Table, path: seq<int>, n: nat)
    requires path != []
    requires forall i :: 0 <= i < |path| - 1 ==> path[i] in t.alias && path[i + 1] == t.alias[path[i]] != path[i]
    requires |path| == n + 1 || (|path| < n + 1 && Rep(t, path[|path| - 1]) == path[|path| - 1])
    ensures Hops(t.alias, path[0], n) == path[|path| - 1]
    decreases n
  {
    if |path| > 1 {
      assert forall i :: 0 <= i < |path[1..]| ==> path[1..][i] == path[i + 1];
      HopsWalk(t, path[1..], n - 1);
    }
  }

  // ----- open file descriptions

  /** The specification: descriptors name descriptions, and a description has one file, given when it is opened, and one
      offset. */
  datatype Shared = Shared(of: map<int, nat>, node: map<nat, nat>, offset: map<nat, nat>, next: nat)

  function Open(s: Shared, fd: int, h: Handle): Shared
  {
    Shared(s.of[fd := s.next], s.node[s.next := h.node], s.offset[s.next := h.offset], s.next + 1)
  }

  function Dup(s: Shared, source: int, fd: int): Shared
    requires source in s.of
  {
    s.(of := s.of[fd := s.of[source]])
  }

  function Close(s: Shared, fd: int): Shared { s.(of := s.of - {fd}) }

  function Seek(s: Shared, fd: int, offset: nat): Shared
    requires fd in s.of
  {
    s.(offset := s.offset[s.of[fd] := offset])
  }

  /** The table stands for the descriptions: same descriptors, one class per description, and every
      handle names its description's file at its description's offset. */
  ghost predicate Refines(t: Table, s: Shared)
  {
    && Flat(t)
    && t.fds.Keys == s.of.Keys
    && (forall a :: a in s.of ==> s.of[a] < s.next && s.of[a] in s.offset && s.of[a] in s.node)
    && (forall a, b :: a in t.fds && b in t.fds ==> (Rep(t, a) == Rep(t, b) <==> s.of[a] == s.of[b]))
    && (forall a :: a in t.fds ==> t.fds[a] == Handle(s.node[s.of[a]], s.offset[s.of[a]]))
  }

  /** A class is exactly the descriptors related by duplication, and they agree on the offset. */
  lemma RefinesAgrees(t: Table, s: Shared)
    requires Refines(t, s)
    ensures Agree(t)
  {
  }

  lemma OpenRefines(t: Table, s: Shared, h: Handle)
    requires Refines(t, s)
    ensures Refines(Added(t, h), Open(s, LowestFrom(t.fds.Keys, 0), h))
  {
    hide LowestFrom;
  }

  /** Descriptor `fd`, not open before, joins the class of an open source at the shared offset. */
  function Joined(t: Table, source: int, fd: int, h: Handle): Table
    requires Rep(t, source) in t.fds
  {
    var leader := Rep(t, source);
    Table(t.fds[fd := h.(offset := t.fds[leader].offset)], t.alias[fd := leader])
  }

  /** A clone of the source's handle names the source's file. */
  lemma DupRefines(t: Table, s: Shared, source: int, fd: int)
    requires Refines(t, s) && source in t.fds && fd !in t.fds
    ensures Refines(Joined(t, source, fd, t.fds[source]), Dup(s, source, fd))
  {
  }

  lemma SeekRefines(t: Table, s: Shared, fd: int, offset: nat)
    requires Refines(t, s) && fd in t.fds
    ensures Refines(Broadcast(t, Rep(t, fd), offset), Seek(s, fd, offset))
  {
    hide Rep, Flat;
    var u := Broadcast(t, Rep(t, fd), offset);
    BroadcastReps(t, Rep(t, fd), offset);
    forall a | a in t.fds
      ensures u.fds[a] == Handle(s.node[s.of[a]], Seek(s, fd, offset).offset[s.of[a]])
    {
      BroadcastAt(t, fd, offset, a);
    }
  }

  lemma BroadcastReps(t: Table, l: int, offset: nat)
    ensures forall a :: Rep(Broadcast(t, l, offset), a) == Rep(t, a)
    ensures Flat(t) ==> Flat(Broadcast(t, l, offset))
  {
  }

  lemma BroadcastAt(t: Table, fd: int, offset: nat, a: int)
    requires Flat(t) && fd in t.fds && a in t.fds
    ensures Broadcast(t, Rep(t, fd), offset).fds[a] ==
      Handle(t.fds[a].node, if Rep(t, a) == Rep(t, fd) then offset else t.fds[a].offset)
  {
  }

  /** Handing a class to its heir keeps the map flat and moves no other descriptor between classes. */
  lemma ReleadKeepsClasses(t: Table, fd: int)
    requires Flat(t) && fd in t.fds
    ensures Flat(Closed(t, fd))
    ensures forall a, b :: a in t.fds && b in t.fds && a != fd && b != fd ==>
      (Rep(Closed(t, fd), a) == Rep(Closed(t, fd), b) <==> Rep(t, a) == Rep(t, b))
  {
    var u := Closed(t, fd);
    forall a | a in t.fds && a != fd
      ensures Rep(u, a) == NewRep(t, fd, a)
    {
      RepAfterClose(t, fd, a);
    }
    NewRepClasses(t, fd);
  }

  /** Where a descriptor's class leads once `fd` is closed. */
  function NewRep(t: Table, fd: int, a: int): int
  {
    var heirs := Followers(t.alias - {fd}, fd);
    if Rep(t, a) == fd && heirs != {} then Least(heirs) else Rep(t, a)
  }

  lemma RepAfterClose(t: Table, fd: int, a: int)
    requires Flat(t) && fd in t.fds && a in t.fds && a != fd
    ensures Rep(Closed(t, fd), a) == NewRep(t, fd, a)
    ensures Relead(t.alias, fd).Keys == t.alias.Keys - {fd}
  {
    var rest := t.alias - {fd};
    var heirs := Followers(rest, fd);
    assert a in rest && rest[a] == fd ==> a in heirs;
  }

  lemma NewRepClasses(t: Table, fd: int)
    requires Flat(t) && fd in t.fds
    ensures Flat(Closed(t, fd))
    ensures forall a, b :: a in t.fds && b in t.fds && a != fd && b != fd ==>
      (NewRep(t, fd, a) == NewRep(t, fd, b) <==> Rep(t, a) == Rep(t, b))
  {
    var rest := t.alias - {fd};
    var heirs := Followers(rest, fd);
    var result := Relead(t.alias, fd);
    assert forall k :: k in rest ==> (k in heirs <==> rest[k] == fd);
    assert result.Keys == rest.Keys;
    if heirs != {} {
      var heir := Least(heirs);
      assert heir in heirs && rest[heir] == fd;
      assert forall a :: a in t.fds && Rep(t, a) == heir ==> a == heir || a in t.alias;
      assert forall a :: a in t.fds && Rep(t, a) != fd ==> Rep(t, a) != heir;
      assert forall k :: k in result ==> result[k] == if rest[k] == fd then heir else rest[k];
    }
  }

  /** Closing any descriptor, leader or not, leaves every other descriptor with its description. */
  lemma CloseRefines(t: Table, s: Shared, fd: int)
    requires Refines(t, s) && fd in t.fds
    ensures Refines(Closed(t, fd), Close(s, fd))
  {
    hide Relead, Leader, Flat, Rep;
    ReleadKeepsClasses(t, fd);
  }

  // ----- every run

  /** Open a file; duplicate onto the lowest free descriptor from a floor; duplicate onto a given
      descriptor, closing it first; close; and an I/O call that leaves the handle at a new offset. */
  datatype Op =
    | OpenFile(h: Handle)
    | DupLowest(source: int, floor: nat)
    | DupOnto(source: int, target: int)
    | CloseFile(fd: int)
    | Io(fd: int, offset: nat)

  /** What the kernel's table becomes.  A failing call leaves the table as it was. */
  function Apply(t: Table, op: Op): Table
  {
    match op
    case OpenFile(h) => Added(t, h)
    case DupLowest(source, floor) =>
      if source in t.fds && Rep(t, source) in t.fds
      then Joined(t, source, LowestFrom(t.fds.Keys, floor), t.fds[source]) else t
    case DupOnto(source, target) =>
      if source == target || source !in t.fds then t else
      var u := if target in t.fds then Closed(t, target) else t;
      if Rep(u, source) in u.fds then Joined(u, source, target, t.fds[source]) else u
    case CloseFile(fd) => if fd in t.fds then Closed(t, fd) else t
    case Io(fd, offset) => if fd in t.fds then Broadcast(t, Rep(t, fd), offset) else t
  }

  /** What POSIX says becomes of the open file descriptions. */
  function Meant(s: Shared, op: Op): Shared
  {
    match op
    case OpenFile(h) => Open(s, LowestFrom(s.of.Keys, 0), h)
    case DupLowest(source, floor) =>
      if source in s.of then Dup(s, source, LowestFrom(s.of.Keys, floor)) else s
    case DupOnto(source, target) =>
      if source == target || source !in s.of then s else Dup(Close(s, target), source, target)
    case CloseFile(fd) => Close(s, fd)
    case Io(fd, offset) => if fd in s.of then Seek(s, fd, offset) else s
  }

  /** The kernel installs the first descriptors with no alias entries: none for a new process, then 0, 1 and 2. */
  function Installed(fds: map<int, Handle>): Table { Table(fds, map[]) }

  /** What they stand for: a description each, numbered like the descriptor. */
  function Apart(fds: map<int, Handle>, n: nat): Shared
    requires forall k :: k in fds ==> 0 <= k < n
  {
    Shared(map k | k in fds :: k, map k: nat | k in fds.Keys :: fds[k].node,
           map k: nat | k in fds.Keys :: fds[k].offset, n)
  }

  lemma InstalledRefines(fds: map<int, Handle>, n: nat)
    requires forall k :: k in fds ==> 0 <= k < n
    ensures Refines(Installed(fds), Apart(fds, n))
  {
  }

  function Run(t: Table, ops: seq<Op>): Table
  {
    if ops == [] then t else Apply(Run(t, ops[..|ops| - 1]), ops[|ops| - 1])
  }

  function MeantRun(s: Shared, ops: seq<Op>): Shared
  {
    if ops == [] then s else Meant(MeantRun(s, ops[..|ops| - 1]), ops[|ops| - 1])
  }

  lemma StepRefines(t: Table, s: Shared, op: Op)
    requires Refines(t, s)
    ensures Refines(Apply(t, op), Meant(s, op))
  {
    hide Relead, Leader, Broadcast, Closed, Joined, Added;
    RefinesOpen(t, s);
    match op
    case OpenFile(h) => OpenRefines(t, s, h);
    case DupLowest(source, floor) =>
      if source in t.fds {
        DupRefines(t, s, source, LowestFrom(t.fds.Keys, floor));
      }
    case DupOnto(source, target) =>
      if source != target && source in t.fds {
        DupOntoRefines(t, s, source, target);
      }
    case CloseFile(fd) =>
      if fd in t.fds {
        CloseRefines(t, s, fd);
      } else {
        assert Close(s, fd) == s;
      }
    case Io(fd, offset) =>
      if fd in t.fds {
        SeekRefines(t, s, fd, offset);
      }
  }

  lemma DupOntoRefines(t: Table, s: Shared, source: int, target: int)
    requires Refines(t, s) && source in t.fds && source != target
    ensures Refines(Apply(t, DupOnto(source, target)), Meant(s, DupOnto(source, target)))
  {
    hide Relead, Leader, Closed, Joined, Added;
    RefinesOpen(t, s);
    if target in t.fds {
      CloseRefines(t, s, target);
      ClosedKeeps(t, target);
      RefinesOpen(Closed(t, target), Close(s, target));
      DupRefines(Closed(t, target), Close(s, target), source, target);
    } else {
      assert Close(s, target) == s;
      DupRefines(t, s, source, target);
    }
  }

  lemma ClosedKeeps(t: Table, fd: int)
    ensures Closed(t, fd).fds == t.fds - {fd}
  {
  }

  lemma RefinesOpen(t: Table, s: Shared)
    requires Refines(t, s)
    ensures forall a :: a in t.fds ==> Rep(t, a) in t.fds
  {
  }

  lemma {:induction false} RunRefines(t: Table, s: Shared, ops: seq<Op>)
    requires Refines(t, s)
    ensures Refines(Run(t, ops), MeantRun(s, ops))
  {
    if ops != [] {
      RunRefines(t, s, ops[..|ops| - 1]);
      StepRefines(Run(t, ops[..|ops| - 1]), MeantRun(s, ops[..|ops| - 1]), ops[|ops| - 1]);
    }
  }

  /** After every run of one process, from no descriptors or from any the kernel installed, the table stands for exactly
      the descriptions POSIX prescribes. */
  lemma EveryRunRefines(fds: map<int, Handle>, n: nat, ops: seq<Op>)
    requires forall k :: k in fds ==> 0 <= k < n
    ensures Refines(Run(Installed(fds), ops), MeantRun(Apart(fds, n), ops))
  {
    InstalledRefines(fds, n);
    RunRefines(Installed(fds), Apart(fds, n), ops);
  }

  /** What a program can observe of that: two descriptors share a leader exactly when duplication
      relates them, the leader is open, and sharing descriptors name one file at one offset. */
  lemma EveryRunShares(fds: map<int, Handle>, n: nat, ops: seq<Op>, a: int, b: int)
    requires forall k :: k in fds ==> 0 <= k < n
    requires a in Run(Installed(fds), ops).fds && b in Run(Installed(fds), ops).fds
    ensures
      var t, s := Run(Installed(fds), ops), MeantRun(Apart(fds, n), ops);
      && Leader(t, a) in t.fds && a in s.of && b in s.of
      && (Leader(t, a) == Leader(t, b) <==> s.of[a] == s.of[b])
      && (Leader(t, a) == Leader(t, b) ==> t.fds[a] == t.fds[b])
      && s.of[a] in s.node && t.fds[a].node == s.node[s.of[a]]
  {
    hide Run, MeantRun, Leader, Apart;
    var t, s := Run(Installed(fds), ops), MeantRun(Apart(fds, n), ops);
    EveryRunRefines(fds, n, ops);
    RefinesAgrees(t, s);
    FlatLeader(t, a);
    FlatLeader(t, b);
  }

  // ----- the loops, as functions

  function PushAll(fds: map<int, Handle>, todo: seq<int>, offset: nat): map<int, Handle>
  {
    if todo == [] then fds
    else PushAll(if todo[0] in fds then SetOffset(fds, todo[0], offset) else fds, todo[1..], offset)
  }

  lemma {:induction false} PushAllMeaning(fds: map<int, Handle>, todo: seq<int>, offset: nat)
    ensures PushAll(fds, todo, offset).Keys == fds.Keys
    ensures forall k :: k in fds ==>
      PushAll(fds, todo, offset)[k] == (if k in todo then fds[k].(offset := offset) else fds[k])
    decreases |todo|
  {
    if todo != [] {
      assert todo == [todo[0]] + todo[1..];
      PushAllMeaning(if todo[0] in fds then SetOffset(fds, todo[0], offset) else fds, todo[1..], offset);
    }
  }

  lemma PushAllIsBroadcast(t: Table, l: int, offset: nat)
    ensures var pushed := PushAll(t.fds, Sorted(Followers(t.alias, l)), offset);
      t.(fds := if l in pushed then SetOffset(pushed, l, offset) else pushed) == Broadcast(t, l, offset)
  {
    hide PushAll, Sorted;
    var peers := Sorted(Followers(t.alias, l));
    PushAllMeaning(t.fds, peers, offset);
    var pushed := PushAll(t.fds, peers, offset);
    assert forall k :: k in peers <==> k in Followers(t.alias, l);
    assert (if l in pushed then SetOffset(pushed, l, offset) else pushed) == Broadcast(t, l, offset).fds;
  }

  function PointAll(alias: map<int, int>, todo: seq<int>, leader: int): map<int, int>
    decreases |todo|
  {
    if todo == [] then alias else PointAll(alias[todo[0] := leader], todo[1..], leader)
  }

  lemma {:induction false} PointAllMeaning(alias: map<int, int>, todo: seq<int>, leader: int)
    requires forall i :: 0 <= i < |todo| ==> todo[i] in alias
    ensures PointAll(alias, todo, leader).Keys == alias.Keys
    ensures forall k :: k in alias ==> PointAll(alias, todo, leader)[k] == if k in todo then leader else alias[k]
    decreases |todo|
  {
    if todo != [] {
      assert todo == [todo[0]] + todo[1..];
      assert alias[todo[0] := leader].Keys == alias.Keys;
      PointAllMeaning(alias[todo[0] := leader], todo[1..], leader);
    }
  }

  /** The order of the loop makes the smallest follower the heir. */
  lemma PointAllIsRelead(rest: map<int, int>, fd: int)
    requires fd !in rest && Followers(rest, fd) != {}
    ensures var heirs := Sorted(Followers(rest, fd));
      |heirs| > 0 && PointAll(rest, heirs, heirs[0]) == Relead(rest, fd)
  {
    hide PointAll, Sorted;
    var followers := Followers(rest, fd);
    var heirs := Sorted(followers);
    assert Least(followers) in heirs;
    assert rest - {fd} == rest;
    assert forall i :: 0 <= i < |heirs| ==> heirs[i] in heirs && heirs[i] in followers;
    assert heirs[0] == Least(followers);
    PointAllMeaning(rest, heirs, heirs[0]);
    assert forall k :: k in rest ==> (k in heirs <==> rest[k] == fd);
    var pointed := PointAll(rest, heirs, heirs[0]);
    var result := Relead(rest, fd);
    assert pointed.Keys == result.Keys;
    assert forall k :: k in result ==> pointed[k] == result[k];
    assert pointed == result;
  }

  lemma ReleadForgets(alias: map<int, int>, fd: int)
    ensures Relead(alias, fd) == Relead(alias - {fd}, fd)
    ensures Followers(alias - {fd}, fd) == {} ==> Relead(alias, fd) == alias - {fd}
  {
    assert (alias - {fd}) - {fd} == alias - {fd};
  }

  lemma AddedFlat(t: Table, h: Handle)
    requires Flat(t)
    ensures Flat(Added(t, h))
  {
  }

  lemma JoinedFlat(t: Table, source: int, fd: int, h: Handle)
    requires Flat(t) && source in t.fds && fd !in t.fds
    ensures Flat(Table(t.fds[fd := h], t.alias[fd := Rep(t, source)]))
  {
  }

  lemma CloseKeepsFlat(t: Table, fd: int)
    requires Flat(t)
    ensures Flat(Apply(t, CloseFile(fd)))
  {
    if fd in t.fds {
      ReleadKeepsClasses(t, fd);
    }
  }

  // ----- the kernel's code

  class FdTable {
    var fds: map<int, Handle>
    var alias: map<int, int>

    function View(): Table
      reads this
    {
      Table(fds, alias)
    }

    constructor ()
      ensures View() == Installed(map[])
    {
      fds, alias := map[], map[];
    }

    method AddFd(h: Handle) returns (fd: int)
      modifies this
      ensures View() == Added(old(View()), h) && fds == old(fds)[fd := h]
      ensures fd == LowestFrom(old(fds).Keys, 0)
    {
      fd := 0;
      while fd in fds
        invariant LowestFrom(fds.Keys, 0) == LowestFrom(fds.Keys, fd)
        decreases LowestFrom(fds.Keys, 0) - fd
      {
        fd := fd + 1;
      }
      fds := fds[fd := h];
      alias := alias[fd := fd];
    }

    /** On any table whatever, the walk takes at most sixteen steps after the first. */
    method AliasLeader(fd: int) returns (r: Result<int>)
      ensures r == if fd in fds then Ok(Leader(View(), fd)) else Err(EBADF)
    {
      if fd !in fds {
        return Err(EBADF);
      }
      var leader := if fd in alias then alias[fd] else fd;
      var n := 16;
      while n > 0
        invariant 0 <= n <= 16
        invariant Hops(alias, leader, n) == Leader(View(), fd)
      {
        if leader !in alias || alias[leader] == leader {
          break;
        }
        leader := alias[leader];
        n := n - 1;
      }
      r := Ok(leader);
    }

    /** Fetch the shared offset into one descriptor. */
    method SyncFrom(fd: int) returns (r: Result<()>)
      modifies this`fds
      ensures fd !in old(fds) || Leader(old(View()), fd) !in old(fds) ==> r == Err(EBADF) && fds == old(fds)
      ensures fd in old(fds) && Leader(old(View()), fd) in old(fds) ==>
        r == Ok(()) && fds == SetOffset(old(fds), fd, old(fds)[Leader(old(View()), fd)].offset)
    {
      var leader := AliasLeader(fd);
      if leader.Err? {
        return Err(EBADF);
      }
      if leader.value == fd {
        assert fds == SetOffset(fds, fd, fds[fd].offset);
        return Ok(());
      }
      if leader.value !in fds {
        return Err(EBADF);
      }
      fds := SetOffset(fds, fd, fds[leader.value].offset);
      r := Ok(());
    }

    /** Push one descriptor's offset to its whole class. */
    method SyncTo(fd: int) returns (r: Result<()>)
      modifies this`fds
      ensures r == if fd in old(fds) then Ok(()) else Err(EBADF)
      ensures fd !in old(fds) ==> fds == old(fds)
      ensures fd in old(fds) ==> View() == Broadcast(old(View()), Leader(old(View()), fd), old(fds)[fd].offset)
    {
      hide Leader;
      var leader := AliasLeader(fd);
      if leader.Err? {
        return Err(EBADF);
      }
      var offset := fds[fd].offset;
      var peers := Sorted(Followers(alias, leader.value));
      var todo := peers;
      while todo != []
        invariant PushAll(fds, todo, offset) == PushAll(old(fds), peers, offset)
        decreases |todo|
      {
        if todo[0] in fds {
          fds := SetOffset(fds, todo[0], offset);
        }
        todo := todo[1..];
      }
      if leader.value in fds {
        fds := SetOffset(fds, leader.value, offset);
      }
      PushAllIsBroadcast(old(View()), leader.value, offset);
      r := Ok(());
    }

    method CloseFd(fd: int) returns (r: Result<()>)
      modifies this
      ensures r == if fd in old(fds) then Ok(()) else Err(EBADF)
      ensures View() == Apply(old(View()), CloseFile(fd))
    {
      hide Relead, Followers, Sorted, Leader;
      if fd !in fds {
        return Err(EBADF);
      }
      fds := fds - {fd};
      alias := alias - {fd};
      if Followers(alias, fd) != {} {
        PointAllIsRelead(alias, fd);
        var heirs := Sorted(Followers(alias, fd));
        var leader := heirs[0];
        ghost var rest := alias;
        alias := alias[leader := leader];
        var todo := heirs[1..];
        while todo != []
          invariant fds == old(fds) - {fd}
          invariant PointAll(alias, todo, leader) == PointAll(rest, heirs, leader)
          decreases |todo|
        {
          alias := alias[todo[0] := leader];
          todo := todo[1..];
        }
      }
      ReleadForgets(old(alias), fd);
      r := Ok(());
    }

    /** `add_fd_from` as written: the descriptor is added before the source is looked up. */
    method AddFdFrom(source: int, h: Handle) returns (r: Result<int>)
      requires Flat(View())
      modifies this
      ensures source in old(fds) ==>
        var fd := LowestFrom(old(fds).Keys, 0);
        && r == Ok(fd) && fd in fds && fds[fd].node == h.node
        && Rep(old(View()), source) in old(fds) && View() == Joined(old(View()), source, fd, h)
        && (h.node == old(fds)[source].node ==> View() == Apply(old(View()), DupLowest(source, 0)))
      ensures source !in old(fds) ==> View() == Added(old(View()), h)
      ensures source !in old(fds) ==>
        r == if source == LowestFrom(old(fds).Keys, 0) then Ok(source) else Err(EBADF)
    {
      hide Leader, LowestFrom, Flat;
      ghost var before := View();
      var fd := AddFd(h);
      AddedFlat(before, h);
      FlatLeader(View(), source);
      var leader := AliasLeader(source);
      if leader.Err? {
        return Err(EBADF);
      }
      alias := alias[fd := leader.value];
      if source in before.fds {
        FlatLeader(before, source);
        assert alias == before.alias[fd := Rep(before, source)];
        JoinedFlat(before, source, fd, h);
      } else {
        assert View() == Added(before, h);
      }
      FlatLeader(View(), fd);
      var synced := SyncFrom(fd);
      r := Ok(fd);
    }

    /** Both `dup3` and the duplicating `fcntl` commands end with these steps. */
    method Attach(source: int, fd: int, h: Handle) returns (r: Result<int>)
      requires Flat(View()) && source in fds && fd !in fds
      modifies this
      ensures r == Ok(fd)
      ensures View() == Joined(old(View()), source, fd, h)
    {
      FlatLeader(View(), source);
      ghost var before := View();
      fds := fds[fd := h];
      var leader := AliasLeader(source);
      alias := alias[fd := leader.value];
      JoinedFlat(before, source, fd, h);
      FlatLeader(View(), fd);
      var synced := SyncFrom(fd);
      r := Ok(fd);
    }

    method DupOntoFd(source: int, target: int) returns (r: Result<int>)
      requires Flat(View())
      modifies this
      ensures r == if source in old(fds) then Ok(target) else Err(EBADF)
      ensures View() == Apply(old(View()), DupOnto(source, target))
      ensures source in old(fds) ==> target in fds && fds[target].node == old(fds)[source].node
    {
      if source == target {
        return if source in fds then Ok(target) else Err(EBADF);
      }
      if source !in fds {
        return Err(EBADF);
      }
      var h := fds[source];
      CloseKeepsFlat(View(), target);
      var closed := CloseFd(target);
      r := Attach(source, target, h);
    }

    method DupFrom(source: int, floor: nat) returns (r: Result<int>)
      requires Flat(View())
      modifies this
      ensures r == if source in old(fds) then Ok(LowestFrom(old(fds).Keys, floor)) else Err(EBADF)
      ensures View() == Apply(old(View()), DupLowest(source, floor))
      ensures r.Ok? ==> r.value in fds && fds[r.value].node == old(fds)[source].node
    {
      if source !in fds {
        return Err(EBADF);
      }
      var h := fds[source];
      var fd := floor;
      while fd in fds
        invariant LowestFrom(fds.Keys, floor) == LowestFrom(fds.Keys, fd)
        invariant floor <= fd
        decreases LowestFrom(fds.Keys, floor) - fd
      {
        fd := fd + 1;
      }
      r := Attach(source, fd, h);
    }

    /** An I/O call: fetch the shared offset, let the call move it, publish.  `move` is what the call makes of the
        offset it is given, or its error. */
    method Transfer(fd: int, move: nat -> Result<nat>) returns (r: Result<nat>)
      requires Flat(View()) && Agree(View())
      modifies this`fds
      ensures fd !in old(fds) ==> r == Err(EBADF) && View() == old(View())
      ensures fd in old(fds) ==> r == move(old(fds)[fd].offset)
      ensures fd in old(fds) ==>
        View() == if r.Ok? then Apply(old(View()), Io(fd, r.value)) else old(View())
    {
      FlatLeader(View(), fd);
      var fetched := SyncFrom(fd);
      if fetched.Err? {
        return Err(EBADF);
      }
      assert fds == old(fds);
      r := move(fds[fd].offset);
      if r.Err? {
        return;
      }
      fds := SetOffset(fds, fd, r.value);
      FlatLeader(View(), fd);
      var pushed := SyncTo(fd);
      assert View() == Broadcast(old(View()), Rep(old(View()), fd), r.value);
    }
  }
}
