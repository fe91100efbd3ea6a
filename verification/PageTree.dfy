/** The shape of the page table under construction: which table page plays which part, and which
leaves have been written.  Each write the builder makes is one step between two shapes.
 */
module PageTree {
  import opened Bits
  import opened Wrappers
  import opened Sv39

  /** The part a table page plays: the root, the table of a gigapage, or the table of a megapage. */
  datatype Role = Top | Mid(giga: nat) | Low(mega: nat)

  datatype Shape = Shape(
    role: map<nat, Role>,  // table address -> its part
    l1: map<nat, nat>,     // gigapage number -> address of its table
    l0: map<nat, nat>,     // megapage number -> address of its table
    big: map<nat, nat>,    // megapage number -> leaf entry
    small: map<nat, nat>   // page number -> leaf entry
  )

  /** The directory entry over a megapage or page number, and the slot in the table it leads to. */
  function Dir(k: nat): nat { k / 512 }

  function Slot(k: nat): (i: nat)
    ensures i < 512
  {
    k % 512
  }

  /** The number with the given directory entry and slot. */
  function Join(i: nat, j: nat): nat { i * 512 + j }

  lemma DirSlot(k: nat)
    ensures Join(Dir(k), Slot(k)) == k
  {
  }

  lemma JoinParts(i: nat, j: nat)
    requires j < 512
    ensures Dir(Join(i, j)) == i && Slot(Join(i, j)) == j
  {
  }

  function Entry(m: map<nat, nat>, k: nat): nat { if k in m then m[k] else 0 }

  function TableEntryAt(m: map<nat, nat>, k: nat): nat { if k in m then MakeTable(m[k]) else 0 }

  /** What slot `j` of a table playing part `r` should hold. */
  function Content(sh: Shape, r: Role, j: nat): nat
  {
    match r
    case Top => TableEntryAt(sh.l1, j)
    case Mid(i) =>
      var k := Join(i, j);
      if k in sh.l0 then TableEntryAt(sh.l0, k) else Entry(sh.big, k)
    case Low(k) => Entry(sh.small, Join(k, j))
  }

  ghost predicate TablesOk(mem: Memory)
  {
    forall t :: t in mem ==> |mem[t]| == 512 && TableAddress(t)
  }

  /** Every table page has exactly one part, and every part at most one page. */
  ghost predicate RolesOk(mem: Memory, root: nat, sh: Shape)
  {
    && sh.role.Keys == mem.Keys
    && root in sh.role && sh.role[root] == Top
    && (forall t :: t in sh.role ==>
         match sh.role[t]
         case Top => t == root
         case Mid(i) => i in sh.l1 && sh.l1[i] == t
         case Low(k) => k in sh.l0 && sh.l0[k] == t)
    && (forall i :: i in sh.l1 ==> sh.l1[i] in sh.role && sh.role[sh.l1[i]] == Mid(i) && i < 512)
    && (forall k :: k in sh.l0 ==> sh.l0[k] in sh.role && sh.role[sh.l0[k]] == Low(k))
  }

  /** Every leaf hangs off a table, and a megapage is a leaf or a table but not both. */
  ghost predicate LeavesOk(sh: Shape)
  {
    && (forall k :: k in sh.l0 ==> Dir(k) in sh.l1 && k !in sh.big)
    && (forall k :: k in sh.big ==> Dir(k) in sh.l1 && Valid(sh.big[k]) && Leaf(sh.big[k]))
    && (forall n :: n in sh.small ==> Dir(n) in sh.l0)
  }

  ghost predicate ContentsOk(mem: Memory, sh: Shape)
    requires TablesOk(mem)
  {
    forall t, j :: t in mem && t in sh.role && 0 <= j < 512 ==> mem[t][j] == Content(sh, sh.role[t], j)
  }

  ghost predicate Tree(mem: Memory, root: nat, sh: Shape)
  {
    TablesOk(mem) && RolesOk(mem, root, sh) && LeavesOk(sh) && ContentsOk(mem, sh)
  }

  function ZeroPage(): (s: seq<nat>)
    ensures |s| == 512 && forall i :: 0 <= i < 512 ==> s[i] == 0
  {
    seq(512, _ => 0)
  }

  function Put(mem: Memory, t: nat, i: nat, v: nat): (r: Memory)
    requires t in mem && i < |mem[t]|
    ensures r.Keys == mem.Keys && |r[t]| == |mem[t]| && r[t][i] == v
    ensures forall j :: 0 <= j < |mem[t]| && j != i ==> r[t][j] == mem[t][j]
    ensures forall q :: q in mem && q != t ==> r[q] == mem[q]
  {
    var row: seq<nat> := mem[t][..i] + [v] + mem[t][i + 1..];
    mem[t := row]
  }

  // ----- the writes

  lemma EmptyTree(root: nat)
    requires TableAddress(root)
    ensures Tree(map[root := ZeroPage()], root, Shape(map[root := Top], map[], map[], map[], map[]))
  {
  }

  /** Writing slot `j` of table `t` takes `sh` to `sh'` when that slot is all that differs. */
  lemma WriteContents(mem: Memory, sh: Shape, sh': Shape, t: nat, j: nat, v: nat)
    requires TablesOk(mem) && ContentsOk(mem, sh) && t in mem && t in sh.role && j < 512
    requires sh'.role == sh.role && Content(sh', sh.role[t], j) == v
    requires forall q, i :: q in sh.role && 0 <= i < 512 && (q != t || i != j) ==>
      Content(sh', sh.role[q], i) == Content(sh, sh.role[q], i)
    ensures TablesOk(Put(mem, t, j, v)) && ContentsOk(Put(mem, t, j, v), sh')
  {
    hide Content, Put, TableAddress;
  }

  /** A zeroed page joins the tree in a part whose slots are all empty. */
  lemma AddPage(mem: Memory, sh: Shape, p: nat, r: Role)
    requires TablesOk(mem) && ContentsOk(mem, sh) && p !in mem && TableAddress(p)
    requires forall j :: 0 <= j < 512 ==> Content(sh, r, j) == 0
    ensures TablesOk(mem[p := ZeroPage()])
    ensures ContentsOk(mem[p := ZeroPage()], sh.(role := sh.role[p := r]))
  {
    hide Content, TableAddress, ZeroPage;
    var sh' := sh.(role := sh.role[p := r]);
    assert forall q: Role, j: nat :: Content(sh', q, j) == Content(sh, q, j) by { ContentIgnoresRoles(sh, sh'); }
  }

  lemma ContentIgnoresRoles(sh: Shape, sh': Shape)
    requires sh' == sh.(role := sh'.role)
    ensures forall q: Role, j: nat :: Content(sh', q, j) == Content(sh, q, j)
  {
  }

  /** The shape once gigapage `i` has a table at `p`. */
  function WithMiddle(sh: Shape, i: nat, p: nat): Shape
  {
    sh.(role := sh.role[p := Mid(i)], l1 := sh.l1[i := p])
  }

  lemma AddMiddle(mem: Memory, root: nat, sh: Shape, i: nat, p: nat)
    requires Tree(mem, root, sh) && i < 512 && i !in sh.l1 && p !in mem && TableAddress(p)
    ensures Tree(Put(mem[p := ZeroPage()], root, i, MakeTable(p)), root, WithMiddle(sh, i, p))
  {
    hide Put, ZeroPage, TableAddress, MakeTable, Content, ContentsOk, TablesOk, RolesOk, LeavesOk;
    var mem1, sh1 := mem[p := ZeroPage()], sh.(role := sh.role[p := Mid(i)]);
    UniqueRoles(mem, root, sh);
    NoLeavesUnder(sh, i);
    AddPage(mem, sh, p, Mid(i));
    PageLength(mem1, root);
    var mem2 := Put(mem1, root, i, MakeTable(p));
    MiddleContents(root, sh1, i, p);
    WriteContents(mem1, sh1, WithMiddle(sh, i, p), root, i, MakeTable(p));
    MiddleRoles(mem, mem2, root, sh, i, p);
    MiddleLeaves(sh, i, p);
  }

  lemma PageLength(mem: Memory, t: nat)
    requires TablesOk(mem) && t in mem
    ensures |mem[t]| == 512
  {
  }

  lemma MiddleRoles(mem: Memory, mem': Memory, root: nat, sh: Shape, i: nat, p: nat)
    requires RolesOk(mem, root, sh) && i < 512 && i !in sh.l1 && p !in mem && mem'.Keys == mem.Keys + {p}
    ensures RolesOk(mem', root, WithMiddle(sh, i, p))
  {
  }

  lemma SameRoles(mem: Memory, mem': Memory, root: nat, sh: Shape, sh': Shape)
    requires RolesOk(mem, root, sh) && mem'.Keys == mem.Keys
    requires sh'.role == sh.role && sh'.l1 == sh.l1 && sh'.l0 == sh.l0
    ensures RolesOk(mem', root, sh')
  {
  }

  lemma MiddleLeaves(sh: Shape, i: nat, p: nat)
    requires LeavesOk(sh)
    ensures LeavesOk(WithMiddle(sh, i, p))
  {
    hide Dir, Valid, Leaf;
  }

  lemma LeafSet(sh: Shape, k: nat, pte: nat)
    requires LeavesOk(sh)
    ensures Dir(k) in sh.l1 && k !in sh.l0 && Valid(pte) && Leaf(pte) ==> LeavesOk(sh.(big := sh.big[k := pte]))
    ensures Dir(k) in sh.l0 ==> LeavesOk(sh.(small := sh.small[k := pte]))
  {
    hide Dir, Valid, Leaf;
  }

  lemma BottomRoles(mem: Memory, mem': Memory, root: nat, sh: Shape, k: nat, p: nat)
    requires RolesOk(mem, root, sh) && k !in sh.l0 && p !in mem && mem'.Keys == mem.Keys + {p}
    ensures RolesOk(mem', root, WithBottom(sh, k, p))
  {
  }

  lemma BottomLeaves(sh: Shape, k: nat, p: nat)
    requires LeavesOk(sh) && Dir(k) in sh.l1 && k !in sh.big
    ensures LeavesOk(WithBottom(sh, k, p))
  {
    hide Dir, Valid, Leaf;
  }

  /** Each part is played by one table only. */
  lemma UniqueRoles(mem: Memory, root: nat, sh: Shape)
    requires RolesOk(mem, root, sh)
    ensures mem.Keys == sh.role.Keys && root in mem && sh.role[root] == Top
    ensures forall t :: t in sh.role && sh.role[t] == Top ==> t == root
    ensures forall i :: i in sh.l1 ==> OnlyMid(sh, sh.l1[i], i) && sh.l1[i] != root
    ensures forall k :: k in sh.l0 ==> OnlyLow(sh, sh.l0[k], k)
  {
  }

  lemma NoLeavesUnder(sh: Shape, i: nat)
    requires LeavesOk(sh) && i !in sh.l1
    ensures forall j :: 0 <= j < 512 ==> Content(sh, Mid(i), j) == 0
  {
    forall j | 0 <= j < 512 ensures Content(sh, Mid(i), j) == 0 { JoinParts(i, j); }
  }

  lemma MiddleContents(root: nat, sh: Shape, i: nat, p: nat)
    requires root in sh.role && sh.role[root] == Top
    requires forall t :: t in sh.role && sh.role[t] == Top ==> t == root
    ensures var sh' := sh.(l1 := sh.l1[i := p]);
      && Content(sh', Top, i) == MakeTable(p)
      && forall q, j :: q in sh.role && 0 <= j < 512 && (q != root || j != i) ==>
           Content(sh', sh.role[q], j) == Content(sh, sh.role[q], j)
  {
    hide MakeTable;
  }

  /** The shape once megapage `k` has a table at `p`. */
  function WithBottom(sh: Shape, k: nat, p: nat): Shape
  {
    sh.(role := sh.role[p := Low(k)], l0 := sh.l0[k := p])
  }

  lemma AddBottom(mem: Memory, root: nat, sh: Shape, k: nat, p: nat)
    requires Tree(mem, root, sh) && Dir(k) in sh.l1 && k !in sh.l0 && k !in sh.big
    requires p !in mem && TableAddress(p)
    ensures Tree(Put(mem[p := ZeroPage()], sh.l1[Dir(k)], Slot(k), MakeTable(p)), root, WithBottom(sh, k, p))
  {
    hide Put, ZeroPage, TableAddress, MakeTable, Content, ContentsOk, TablesOk, RolesOk, LeavesOk, Dir, Slot;
    UniqueRoles(mem, root, sh);
    var t := sh.l1[Dir(k)];
    var mem1, sh1 := mem[p := ZeroPage()], sh.(role := sh.role[p := Low(k)]);
    assert OnlyMid(sh, t, Dir(k));
    NoPagesUnder(sh, k);
    AddPage(mem, sh, p, Low(k));
    PageLength(mem1, t);
    var mem2 := Put(mem1, t, Slot(k), MakeTable(p));
    BottomContents(sh1, t, k, p);
    WriteContents(mem1, sh1, WithBottom(sh, k, p), t, Slot(k), MakeTable(p));
    BottomRoles(mem, mem2, root, sh, k, p);
    BottomLeaves(sh, k, p);
  }

  lemma NoPagesUnder(sh: Shape, k: nat)
    requires LeavesOk(sh) && k !in sh.l0
    ensures forall j :: 0 <= j < 512 ==> Content(sh, Low(k), j) == 0
  {
    forall j | 0 <= j < 512 ensures Content(sh, Low(k), j) == 0 { JoinParts(k, j); }
  }

  /** `t` is the one table playing the part `Mid(i)`. */
  ghost predicate OnlyMid(sh: Shape, t: nat, i: nat)
  {
    && t in sh.role && sh.role[t] == Mid(i)
    && forall q :: q in sh.role && sh.role[q] == Mid(i) ==> q == t
  }

  ghost predicate OnlyLow(sh: Shape, t: nat, k: nat)
  {
    && t in sh.role && sh.role[t] == Low(k)
    && forall q :: q in sh.role && sh.role[q] == Low(k) ==> q == t
  }

  lemma BottomContents(sh: Shape, t: nat, k: nat, p: nat)
    requires OnlyMid(sh, t, Dir(k))
    ensures var sh' := sh.(l0 := sh.l0[k := p]);
      && Content(sh', Mid(Dir(k)), Slot(k)) == MakeTable(p)
      && forall q, j :: q in sh.role && 0 <= j < 512 && (q != t || j != Slot(k)) ==>
           Content(sh', sh.role[q], j) == Content(sh, sh.role[q], j)
  {
    hide MakeTable, Dir, Slot, Join;
    var sh' := sh.(l0 := sh.l0[k := p]);
    DirSlot(k);
    forall q, j | q in sh.role && 0 <= j < 512 && (q != t || j != Slot(k))
      ensures Content(sh', sh.role[q], j) == Content(sh, sh.role[q], j)
    {
      if sh.role[q].Mid? {
        JoinParts(sh.role[q].giga, j);
      }
    }
  }

  lemma SetBig(mem: Memory, root: nat, sh: Shape, k: nat, pte: nat)
    requires Tree(mem, root, sh) && Dir(k) in sh.l1 && k !in sh.l0 && Valid(pte) && Leaf(pte)
    ensures Tree(Put(mem, sh.l1[Dir(k)], Slot(k), pte), root, sh.(big := sh.big[k := pte]))
  {
    hide Put, MakeTable, Content, ContentsOk, TablesOk, RolesOk, LeavesOk, Dir, Slot, Valid, Leaf;
    UniqueRoles(mem, root, sh);
    var t := sh.l1[Dir(k)];
    assert OnlyMid(sh, t, Dir(k));
    PageLength(mem, t);
    BigContents(sh, t, k, pte);
    WriteContents(mem, sh, sh.(big := sh.big[k := pte]), t, Slot(k), pte);
    SameRoles(mem, Put(mem, t, Slot(k), pte), root, sh, sh.(big := sh.big[k := pte]));
    LeafSet(sh, k, pte);
  }

  lemma BigContents(sh: Shape, t: nat, k: nat, pte: nat)
    requires OnlyMid(sh, t, Dir(k)) && k !in sh.l0
    ensures var sh' := sh.(big := sh.big[k := pte]);
      && Content(sh', Mid(Dir(k)), Slot(k)) == pte
      && forall q, j :: q in sh.role && 0 <= j < 512 && (q != t || j != Slot(k)) ==>
           Content(sh', sh.role[q], j) == Content(sh, sh.role[q], j)
  {
    hide MakeTable, Dir, Slot, Join;
    var sh' := sh.(big := sh.big[k := pte]);
    DirSlot(k);
    forall q, j | q in sh.role && 0 <= j < 512 && (q != t || j != Slot(k))
      ensures Content(sh', sh.role[q], j) == Content(sh, sh.role[q], j)
    {
      if sh.role[q].Mid? {
        JoinParts(sh.role[q].giga, j);
      }
    }
  }

  lemma SetSmall(mem: Memory, root: nat, sh: Shape, n: nat, pte: nat)
    requires Tree(mem, root, sh) && Dir(n) in sh.l0
    ensures Tree(Put(mem, sh.l0[Dir(n)], Slot(n), pte), root, sh.(small := sh.small[n := pte]))
  {
    hide Put, MakeTable, Content, ContentsOk, TablesOk, RolesOk, LeavesOk, Dir, Slot, Valid, Leaf;
    UniqueRoles(mem, root, sh);
    var t := sh.l0[Dir(n)];
    assert OnlyLow(sh, t, Dir(n));
    PageLength(mem, t);
    SmallContents(sh, t, n, pte);
    WriteContents(mem, sh, sh.(small := sh.small[n := pte]), t, Slot(n), pte);
    SameRoles(mem, Put(mem, t, Slot(n), pte), root, sh, sh.(small := sh.small[n := pte]));
    LeafSet(sh, n, pte);
  }

  lemma SmallContents(sh: Shape, t: nat, n: nat, pte: nat)
    requires OnlyLow(sh, t, Dir(n))
    ensures var sh' := sh.(small := sh.small[n := pte]);
      && Content(sh', Low(Dir(n)), Slot(n)) == pte
      && forall q, j :: q in sh.role && 0 <= j < 512 && (q != t || j != Slot(n)) ==>
           Content(sh', sh.role[q], j) == Content(sh, sh.role[q], j)
  {
    hide MakeTable, Dir, Slot, Join;
    var sh' := sh.(small := sh.small[n := pte]);
    DirSlot(n);
    forall q, j | q in sh.role && 0 <= j < 512 && (q != t || j != Slot(n))
      ensures Content(sh', sh.role[q], j) == Content(sh, sh.role[q], j)
    {
      if sh.role[q].Low? {
        JoinParts(sh.role[q].mega, j);
      }
    }
  }

  // ----- what the walk sees

  /** What a leaf entry at the given level translates `va` to. */
  function LeafAt(pte: nat, level: nat, va: nat): Option<Translation>
    requires level <= 2
  {
    if !Valid(pte) || Reserved(pte) || !Leaf(pte) then None
    else
      var base := Ppn(pte) * PAGE;
      if base % PageSize(level) != 0 then None
      else Some(Translation(base + va % PageSize(level), Flags(pte)))
  }

  function Lookup(sh: Shape, va: nat): Option<Translation>
  {
    if va / MEGAPAGE in sh.big then LeafAt(sh.big[va / MEGAPAGE], 1, va)
    else LeafAt(Entry(sh.small, va / PAGE), 0, va)
  }

  lemma Numbers(va: nat)
    requires va < USER_TOP
    ensures Dir(va / MEGAPAGE) == va / GIGAPAGE && Dir(va / PAGE) == va / MEGAPAGE
    ensures Vpn(va, 2) == va / GIGAPAGE && Vpn(va, 1) == Slot(va / MEGAPAGE) && Vpn(va, 0) == Slot(va / PAGE)
  {
  }

  /** The walk of a tree finds exactly its leaves. */
  lemma WalkIsLookup(mem: Memory, root: nat, sh: Shape, va: nat)
    requires Tree(mem, root, sh) && va < USER_TOP
    ensures Walk(mem, root, va) == Lookup(sh, va)
  {
    hide *;
    Numbers(va);
    WalkTop(mem, root, sh, va);
    WalkMid(mem, root, sh, va);
    WalkLow(mem, root, sh, va);
    LookupCases(mem, root, sh, va);
  }

  /** Reading a slot of each kind of table. */
  lemma ReadTop(mem: Memory, root: nat, sh: Shape, g: nat)
    requires Tree(mem, root, sh) && g < 512
    ensures root in mem && |mem[root]| == 512 && mem[root][g] == TableEntryAt(sh.l1, g)
    ensures g in sh.l1 ==> sh.l1[g] in mem && |mem[sh.l1[g]]| == 512
  {
    hide MakeTable, TableAddress, LeavesOk, TableEntryAt;
    assert mem[root][g] == Content(sh, Top, g);
  }

  lemma ReadMid(mem: Memory, root: nat, sh: Shape, k: nat)
    requires Tree(mem, root, sh) && Dir(k) in sh.l1
    ensures var t := sh.l1[Dir(k)];
      && t in mem && |mem[t]| == 512
      && mem[t][Slot(k)] == if k in sh.l0 then TableEntryAt(sh.l0, k) else Entry(sh.big, k)
    ensures k in sh.l0 ==> sh.l0[k] in mem && |mem[sh.l0[k]]| == 512
  {
    hide MakeTable, TableAddress, LeavesOk, Dir, Slot, Join;
    DirSlot(k);
    var t := sh.l1[Dir(k)];
    assert sh.role[t] == Mid(Dir(k));
    assert mem[t][Slot(k)] == Content(sh, Mid(Dir(k)), Slot(k));
  }

  lemma ReadLow(mem: Memory, root: nat, sh: Shape, n: nat)
    requires Tree(mem, root, sh) && Dir(n) in sh.l0
    ensures var t := sh.l0[Dir(n)];
      t in mem && |mem[t]| == 512 && mem[t][Slot(n)] == Entry(sh.small, n)
  {
    hide MakeTable, TableAddress, LeavesOk, Dir, Slot, Join;
    DirSlot(n);
    var t := sh.l0[Dir(n)];
    assert sh.role[t] == Low(Dir(n));
    assert mem[t][Slot(n)] == Content(sh, Low(Dir(n)), Slot(n));
  }

  lemma WalkTop(mem: Memory, root: nat, sh: Shape, va: nat)
    requires Tree(mem, root, sh) && va < USER_TOP
    ensures Walk(mem, root, va) ==
      if va / GIGAPAGE in sh.l1 then WalkFrom(mem, sh.l1[va / GIGAPAGE], 1, va) else None
  {
    hide Tree, MakeTable, Reserved, Readable, Writable, Executable, Ppn, Flags, Leaf, Dir, Slot, Vpn, PageSize;
    Numbers(va);
    var g := va / GIGAPAGE;
    ReadTop(mem, root, sh, g);
    if g in sh.l1 {
      TreeEntry(mem, root, sh, sh.l1[g]);
    }
  }

  lemma WalkMid(mem: Memory, root: nat, sh: Shape, va: nat)
    requires Tree(mem, root, sh) && va < USER_TOP
    ensures va / GIGAPAGE in sh.l1 ==>
      WalkFrom(mem, sh.l1[va / GIGAPAGE], 1, va) ==
        (if va / MEGAPAGE in sh.l0 then WalkFrom(mem, sh.l0[va / MEGAPAGE], 0, va)
         else LeafAt(Entry(sh.big, va / MEGAPAGE), 1, va))
  {
    hide Tree, MakeTable, Reserved, Readable, Writable, Executable, Ppn, Flags, Dir, Slot, Vpn, PageSize;
    Numbers(va);
    var g, k := va / GIGAPAGE, va / MEGAPAGE;
    if g in sh.l1 {
      ReadMid(mem, root, sh, k);
      if k in sh.l0 {
        TreeEntry(mem, root, sh, sh.l0[k]);
      } else {
        BigIsLeaf(mem, root, sh, k);
      }
    }
  }

  lemma WalkLow(mem: Memory, root: nat, sh: Shape, va: nat)
    requires Tree(mem, root, sh) && va < USER_TOP
    ensures va / MEGAPAGE in sh.l0 ==>
      WalkFrom(mem, sh.l0[va / MEGAPAGE], 0, va) == LeafAt(Entry(sh.small, va / PAGE), 0, va)
  {
    hide Tree, Reserved, Readable, Writable, Executable, Ppn, Flags, Dir, Slot, Vpn, PageSize;
    Numbers(va);
    if va / MEGAPAGE in sh.l0 {
      ReadLow(mem, root, sh, va / PAGE);
    }
  }

  lemma BigIsLeaf(mem: Memory, root: nat, sh: Shape, k: nat)
    requires Tree(mem, root, sh)
    ensures k in sh.big ==> Valid(sh.big[k]) && Leaf(sh.big[k])
  {
    hide Valid, Leaf, TablesOk, RolesOk, ContentsOk;
  }

  lemma TreeEntry(mem: Memory, root: nat, sh: Shape, t: nat)
    requires Tree(mem, root, sh) && t in mem
    ensures var pte := MakeTable(t); Valid(pte) && !Reserved(pte) && !Leaf(pte) && Ppn(pte) * PAGE == t
    ensures MakeTable(t) / 1024 * PAGE == t && t != 0
  {
    hide MakeTable, Valid, Reserved, Leaf, Ppn, RolesOk, LeavesOk, ContentsOk;
    TableEntry(t);
  }

  lemma LookupCases(mem: Memory, root: nat, sh: Shape, va: nat)
    requires Tree(mem, root, sh) && va < USER_TOP
    ensures Lookup(sh, va) ==
      if va / GIGAPAGE !in sh.l1 then None
      else if va / MEGAPAGE in sh.l0 then LeafAt(Entry(sh.small, va / PAGE), 0, va)
      else LeafAt(Entry(sh.big, va / MEGAPAGE), 1, va)
  {
    hide Dir, Slot, Vpn, TablesOk, RolesOk, ContentsOk, Reserved, Leaf, Ppn, Flags;
    Numbers(va);
  }
}
