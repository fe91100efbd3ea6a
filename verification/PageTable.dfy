/** The page table the kernel builds for a user address space, and its agreement with the segment
list and with the kernel's own copy path.
 */
module PageTable {
  import opened Bits
  import opened Wrappers
  import opened Ordered
  import opened Segments
  import opened CopyPath
  import opened Sv39
  import opened PageTree

  const KERNEL_BASE: nat := 0x8000_0000
  const KERNEL_END: nat := 0x1_0000_0000
  const MMIO_BASE: nat := 0x0200_0000
  const MMIO_END: nat := 0x2000_0000
  const KERNEL_FLAGS: nat := 2 + 4 + 8 + 64 + 128  // R, W, X, A, D
  const MMIO_FLAGS: nat := 2 + 4 + 64 + 128        // R, W, A, D

  /** The identity windows, by megapage number. */
  function WindowFlags(k: nat): Option<nat>
  {
    if KERNEL_BASE <= k * MEGAPAGE < KERNEL_END then Some(KERNEL_FLAGS)
    else if MMIO_BASE <= k * MEGAPAGE < MMIO_END then Some(MMIO_FLAGS)
    else None
  }

  predicate InWindow(va: nat) { WindowFlags(va / MEGAPAGE).Some? }

  /** The identity windows, by address. */
  function WindowAt(va: nat): Option<nat>
  {
    if KERNEL_BASE <= va < KERNEL_END then Some(KERNEL_FLAGS)
    else if MMIO_BASE <= va < MMIO_END then Some(MMIO_FLAGS)
    else None
  }

  lemma WindowRange(va: nat)
    ensures WindowFlags(va / MEGAPAGE) == WindowAt(va)
  {
  }

  /** `riscv_segment_pte_flags` */
  function SegmentFlags(prot: nat): nat
  {
    var exec := prot / 4 % 2 == 1;
    var write := prot / 2 % 2 == 1;
    var read := prot % 2 == 1 || exec;
    var rwx := (if read then 2 else 0) + (if write then 4 else 0) + (if exec then 8 else 0);
    16 + 64 + 128 + (if rwx == 0 then 2 + 4 else rwx)
  }

  /** A mapping that asks for write access alone. */
  predicate WriteOnly(prot: nat) { prot % 8 == 2 }

  /** `segment_phys_base` */
  function PhysBase(s: Segment): Option<nat>
  {
    var offset := PageOffset(s.start);
    match s.storage
    case Owned(base) => Some(base)
    case Shared(ptr) => Some(SaturatingSub(ptr, offset))
    case Host(ptr, _) => if PageOffset(ptr) == offset then Some(SaturatingSub(ptr, offset)) else None
  }

  /** `segment` is the kernel's own identity range, left to the identity window. */
  predicate Skipped(s: Segment)
  {
    PhysBase(s).None? ||
    (KERNEL_BASE <= AlignDown(s.start) < KERNEL_END && PhysBase(s).value == AlignDown(s.start))
  }

  /** The leaf that `map_segment_pages_riscv` writes for page `n`, if it writes one. */
  function PagePte(s: Segment, n: nat): Option<nat>
  {
    if Skipped(s) || !(AlignDown(s.start) <= n * PAGE < AlignUp(s.End())) || PhysBase(s).value % PAGE != 0 then None
    else Some(MakeLeaf(PhysBase(s).value + (n * PAGE - AlignDown(s.start)), SegmentFlags(s.prot)))
  }

  /** The leaf for page `n` after the segments keyed in `keys` were mapped in turn: the last one wins. */
  function LastPte(m: Mappings, keys: seq<int>, n: nat): Option<nat>
    requires forall i :: 0 <= i < |keys| ==> keys[i] in m
  {
    if keys == [] then None
    else
      var last := |keys| - 1;
      if PagePte(m[keys[last]], n).Some? then PagePte(m[keys[last]], n)
      else LastPte(m, keys[..last], n)
  }

  function At(m: map<nat, nat>, k: nat): Option<nat> { if k in m then Some(m[k]) else None }

  /** Segments lie in the lower half, their storage in physical memory. */
  predicate Fits(s: Segment)
  {
    && s.End() <= USER_TOP
    && (PhysBase(s).Some? ==> PhysBase(s).value + s.len + 2 * PAGE <= PHYS_LIMIT)
  }

  // ----- fresh pages

  lemma {:induction false} InjectiveBound(f: map<nat, nat>, n: nat)
    requires forall x :: x in f ==> f[x] < n
    requires forall x, y :: x in f && y in f && x != y ==> f[x] != f[y]
    ensures |f| <= n
    decreases n
  {
    if n == 0 {
      assert f == map[];
    } else if x :| x in f && f[x] == n - 1 {
      var g := f - {x};
      InjectiveBound(g, n - 1);
      assert f.Keys == g.Keys + {x};
    } else {
      InjectiveBound(f, n - 1);
    }
  }

  function Code(r: Role): nat
  {
    match r
    case Top => 0
    case Mid(i) => 1 + i
    case Low(k) => 513 + k
  }

  const MAX_TABLES: nat := 1 + 512 + 512 * 512

  /** A tree never has more tables than directory entries to hang them from. */
  lemma TablesBounded(mem: Memory, root: nat, sh: Shape)
    requires Tree(mem, root, sh)
    ensures |mem| <= MAX_TABLES
  {
    hide TablesOk, ContentsOk;
    var f := map t | t in sh.role :: Code(sh.role[t]);
    assert f.Keys == mem.Keys;
    forall t | t in f ensures f[t] < MAX_TABLES {
      if sh.role[t].Low? {
        assert Dir(sh.role[t].mega) in sh.l1;
      }
    }
    InjectiveBound(f, MAX_TABLES);
    assert |f| == |f.Keys| && |mem| == |mem.Keys|;
  }

  ghost function Candidates(n: nat): (s: set<nat>)
    ensures forall a :: a in s ==> a % PAGE == 0 && 0 < a <= n * PAGE
    ensures |s| == n
  {
    if n == 0 then {} else Candidates(n - 1) + {n * PAGE}
  }

  /** So there is always a free page to put another one in. */
  lemma FreshPageExists(mem: Memory)
    requires |mem| <= MAX_TABLES
    ensures exists p: nat :: p < PHYS_LIMIT && TableAddress(p) && p !in mem
  {
    var s := Candidates(MAX_TABLES + 1);
    if s <= mem.Keys {
      CardinalityBelow(s, mem.Keys);
      assert false;
    }
    var p: nat :| p in s && p !in mem.Keys;
    assert TableAddress(p);
  }

  // ----- what `ensure_next_table` reads

  /** `existing & (R | W | X) == 0` */
  predicate NoAccessBits(pte: nat) { pte / 2 % 8 == 0 }

  lemma TablePointer(mem: Memory, root: nat, sh: Shape, t: nat)
    requires Tree(mem, root, sh) && t in mem
    ensures var pte := MakeTable(t); Valid(pte) && NoAccessBits(pte) && pte / 1024 * PAGE == t && t != 0
  {
    hide Tree, MakeTable;
    TreeEntry(mem, root, sh, t);
    MakeTableIs(t);
    NoFlags(t / PAGE);
  }

  lemma NoFlags(q: nat)
    ensures Valid(q * 1024 + 1) && NoAccessBits(q * 1024 + 1)
  {
    FieldBits(q, 0);
    EvenPart(q * 512, 1);
    DivUnique(q * 512, 8, q * 64, 0);
  }

  lemma LeafBits(pte: nat)
    requires Leaf(pte)
    ensures !NoAccessBits(pte)
  {
    var q := pte / 2;
    assert pte / 8 == q / 4;
  }

  /** The entry over a gigapage is its table, or empty. */
  lemma TopSlot(mem: Memory, root: nat, sh: Shape, i: nat)
    requires Tree(mem, root, sh) && i < 512
    ensures root in mem && |mem[root]| == 512
    ensures var pte := mem[root][i];
      if i in sh.l1 then Valid(pte) && NoAccessBits(pte) && pte / 1024 * PAGE == sh.l1[i] else !Valid(pte)
  {
    hide Tree, MakeTable, NoAccessBits;
    ReadTop(mem, root, sh, i);
    if i in sh.l1 {
      TablePointer(mem, root, sh, sh.l1[i]);
    }
  }

  /** The entry over a megapage is its table, a leaf, or empty. */
  lemma MidSlot(mem: Memory, root: nat, sh: Shape, k: nat)
    requires Tree(mem, root, sh) && Dir(k) in sh.l1
    ensures sh.l1[Dir(k)] in mem && |mem[sh.l1[Dir(k)]]| == 512 && sh.l1[Dir(k)] != 0
    ensures k in sh.l0 ==> sh.l0[k] in mem && sh.l0[k] != 0
    ensures var pte := mem[sh.l1[Dir(k)]][Slot(k)];
      if k in sh.l0 then Valid(pte) && NoAccessBits(pte) && pte / 1024 * PAGE == sh.l0[k] && k !in sh.big
      else if k in sh.big then Valid(pte) && !NoAccessBits(pte)
      else !Valid(pte)
  {
    hide Tree, MakeTable, NoAccessBits, Leaf, Dir, Slot;
    ReadMid(mem, root, sh, k);
    TableOrLeaf(mem, root, sh, k);
    TablePointer(mem, root, sh, sh.l1[Dir(k)]);
    if k in sh.l0 {
      TablePointer(mem, root, sh, sh.l0[k]);
    } else if k in sh.big {
      LeafBits(sh.big[k]);
    }
  }

  lemma TableOrLeaf(mem: Memory, root: nat, sh: Shape, k: nat)
    requires Tree(mem, root, sh)
    ensures k in sh.l0 ==> k !in sh.big
    ensures k in sh.big ==> Valid(sh.big[k]) && Leaf(sh.big[k])
  {
    hide TablesOk, RolesOk, ContentsOk, Valid, Leaf;
  }

  /** `(vaddr | paddr) & (2^n - 1) != 0` */
  predicate Misaligned(vaddr: nat, paddr: nat, n: nat) { And(Or(vaddr, paddr), Pow2(n) - 1) != 0 }

  lemma MisalignedIs(vaddr: nat, paddr: nat)
    ensures Misaligned(vaddr, paddr, 12) <==> vaddr % PAGE != 0 || paddr % PAGE != 0
    ensures Misaligned(vaddr, paddr, 21) <==> vaddr % MEGAPAGE != 0 || paddr % MEGAPAGE != 0
  {
    hide And, Or, Pow2;
    LargePowers();
    AndLowMask(Or(vaddr, paddr), 12);
    OrMultiple(vaddr, paddr, 12);
    AndLowMask(Or(vaddr, paddr), 21);
    OrMultiple(vaddr, paddr, 21);
  }

  lemma LargePowers()
    ensures Pow2(12) == PAGE && Pow2(21) == MEGAPAGE
  {
    WordIsPow2();
    assert Pow2(9) == 512 by { assert Pow2(4) == 16; }
    Pow2Add(12, 9);
  }

  /** `after` is `before` with megapages `[first, limit)` mapped to themselves. */
  ghost predicate Identity(before: map<nat, nat>, after: map<nat, nat>, first: nat, limit: nat, flags: nat)
  {
    forall k: nat ::
      At(after, k) == (if first <= k < limit then Some(MakeLeaf(k * MEGAPAGE, flags)) else At(before, k))
  }

  /** `after` is `before` with the leaves of `s` below `limit` laid over it, except under a megapage. */
  ghost predicate Overlaid(before: map<nat, nat>, after: map<nat, nat>, big: map<nat, nat>, s: Segment, limit: nat)
  {
    forall n: nat ::
      At(after, n) ==
        (if n * PAGE < limit && PagePte(s, n).Some? && Dir(n) !in big then PagePte(s, n) else At(before, n))
  }

  /** Before its first page, and for a segment that is skipped altogether, nothing is laid over. */
  lemma NoOverlay(small: map<nat, nat>, big: map<nat, nat>, s: Segment)
    ensures Overlaid(small, small, big, s, AlignDown(s.start))
    ensures Skipped(s) ==> Overlaid(small, small, big, s, AlignUp(s.End()))
  {
    hide AlignUp, AlignDown, PhysBase, MakeLeaf, SegmentFlags;
  }

  lemma OverlayStep(before: map<nat, nat>, small: map<nat, nat>, after: map<nat, nat>, big: map<nat, nat>,
                    s: Segment, v: nat)
    requires !Skipped(s) && v % PAGE == 0 && AlignDown(s.start) <= v < AlignUp(s.End()) && s.start < WORD
    requires v < USER_TOP && Overlaid(before, small, big, s, v)
    requires
      var p := PhysBase(s).value + (v - AlignDown(s.start));
      after == if p % PAGE != 0 || v / MEGAPAGE in big then small
               else small[v / PAGE := MakeLeaf(p, SegmentFlags(s.prot))]
    ensures Overlaid(before, after, big, s, v + PAGE)
  {
    hide AlignUp, AlignDown, PhysBase, MakeLeaf, SegmentFlags, Dir, Skipped;
    AlignDownIs(s.start);
    Numbers(v);
    assert v / PAGE * PAGE == v;
    forall n: nat ensures At(after, n) ==
      (if n * PAGE < v + PAGE && PagePte(s, n).Some? && Dir(n) !in big then PagePte(s, n) else At(before, n))
    {
      assert At(small, n) ==
        (if n * PAGE < v && PagePte(s, n).Some? && Dir(n) !in big then PagePte(s, n) else At(before, n));
    }
  }

  class Sv39Builder {
    var pages: Memory
    const root: nat
    ghost var shape: Shape

    ghost predicate Sound()
      reads this
    {
      Tree(pages, root, shape)
    }

    constructor (root: nat)
      requires TableAddress(root)
      ensures Sound() && this.root == root && shape.l0 == map[] && shape.big == map[] && shape.small == map[]
    {
      this.root := root;
      pages := map[root := ZeroPage()];
      shape := Shape(map[root := Top], map[], map[], map[], map[]);
      EmptyTree(root);
    }

    /** The allocator's answer to `Box::new`: any free page. */
    method FreshPage() returns (p: nat)
      requires Sound()
      ensures TableAddress(p) && p !in pages
    {
      hide Tree, TableAddress;
      TablesBounded(pages, root, shape);
      FreshPageExists(pages);
      p :| p < PHYS_LIMIT && TableAddress(p) && p !in pages;
    }

    /** `ensure_next_table`: the table below a directory entry, made on demand; 0 over a leaf. */
    method EnsureNextTable(table: nat, index: nat, ghost k: nat) returns (next: nat)
      requires Sound() && index < 512
      requires table == root || (Dir(k) in shape.l1 && table == shape.l1[Dir(k)] && index == Slot(k))
      modifies this
      ensures Sound() && shape.big == old(shape.big) && shape.small == old(shape.small)
      ensures table == root ==>
        shape.l0 == old(shape.l0) && index in shape.l1 && next == shape.l1[index]
      ensures table != root ==> shape.l1 == old(shape.l1)
      ensures table != root && k in shape.big ==> next == 0
      ensures table != root && k !in shape.big ==> k in shape.l0 && next == shape.l0[k] && next != 0
    {
      hide Tree, TableAddress, MakeTable, Put, ZeroPage, NoAccessBits, Dir, Slot;
      if table == root {
        TopSlot(pages, root, shape, index);
      } else {
        MidSlot(pages, root, shape, k);
      }
      var existing := pages[table][index];
      if Valid(existing) && NoAccessBits(existing) {
        return existing / 1024 * PAGE;
      }
      if Valid(existing) {
        return 0;
      }
      next := FreshPage();
      if table == root {
        AddMiddle(pages, root, shape, index, next);
        shape := WithMiddle(shape, index, next);
      } else {
        AddBottom(pages, root, shape, k, next);
        shape := WithBottom(shape, k, next);
      }
      NotZero(next);
      pages := pages[next := ZeroPage()];
      pages := Put(pages, table, index, MakeTable(next));
    }

    method Map2M(vaddr: nat, paddr: nat, flags: nat)
      requires Sound() && vaddr < USER_TOP && vaddr / MEGAPAGE !in shape.l0
      requires Valid(MakeLeaf(paddr, flags)) && Leaf(MakeLeaf(paddr, flags))
      modifies this
      ensures Sound() && shape.l0 == old(shape.l0) && shape.small == old(shape.small)
      ensures shape.big == if vaddr % MEGAPAGE != 0 || paddr % MEGAPAGE != 0 then old(shape.big)
        else old(shape.big)[vaddr / MEGAPAGE := MakeLeaf(paddr, flags)]
    {
      hide Tree, MakeLeaf, Put, Dir, Slot, Valid, Leaf, Vpn, Misaligned;
      MisalignedIs(vaddr, paddr);
      if Misaligned(vaddr, paddr, 21) {
        return;
      }
      Numbers(vaddr);
      ghost var k := vaddr / MEGAPAGE;
      VpnBound(vaddr);
      var l1 := EnsureNextTable(root, Vpn(vaddr, 2), 0);
      SetBig(pages, root, shape, k, MakeLeaf(paddr, flags));
      MidSlot(pages, root, shape, k);
      pages := Put(pages, l1, Vpn(vaddr, 1), MakeLeaf(paddr, flags));
      shape := shape.(big := shape.big[k := MakeLeaf(paddr, flags)]);
    }

    method Map4K(vaddr: nat, paddr: nat, flags: nat)
      requires Sound() && vaddr < USER_TOP
      modifies this
      ensures Sound() && shape.big == old(shape.big)
      ensures shape.small ==
        if vaddr % PAGE != 0 || paddr % PAGE != 0 || vaddr / MEGAPAGE in shape.big then old(shape.small)
        else old(shape.small)[vaddr / PAGE := MakeLeaf(paddr, flags)]
    {
      hide Tree, MakeLeaf, Put, Dir, Slot, Vpn, Misaligned;
      MisalignedIs(vaddr, paddr);
      if Misaligned(vaddr, paddr, 12) {
        return;
      }
      Numbers(vaddr);
      VpnBound(vaddr);
      ghost var k, n := vaddr / MEGAPAGE, vaddr / PAGE;
      var l1 := EnsureNextTable(root, Vpn(vaddr, 2), 0);
      MidSlot(pages, root, shape, k);
      MiddleNotRoot(pages, root, shape, Dir(k));
      if l1 == 0 {
        assert false;  // the root holds no leaves
      }
      var l0 := EnsureNextTable(l1, Vpn(vaddr, 1), k);
      if l0 == 0 {
        return;
      }
      SetSmall(pages, root, shape, n, MakeLeaf(paddr, flags));
      ReadLow(pages, root, shape, n);
      pages := Put(pages, l0, Vpn(vaddr, 0), MakeLeaf(paddr, flags));
      shape := shape.(small := shape.small[n := MakeLeaf(paddr, flags)]);
    }

    /** `map_identity_2m` over whole megapages. */
    method MapIdentity2M(first: nat, limit: nat, flags: nat)
      requires Sound() && shape.l0 == map[] && first <= limit && limit * MEGAPAGE <= USER_TOP
      requires KernelFlags(flags)
      modifies this
      ensures Sound() && shape.l0 == map[] && shape.small == old(shape.small)
      ensures Identity(old(shape.big), shape.big, first, limit, flags)
    {
      hide Tree, MakeLeaf;
      var cursor := first * MEGAPAGE;
      ghost var k := first;
      while cursor < limit * MEGAPAGE
        invariant Sound() && shape.l0 == map[] && shape.small == old(shape.small)
        invariant first <= k <= limit && cursor == k * MEGAPAGE
        invariant Identity(old(shape.big), shape.big, first, k, flags)
      {
        KernelLeaf(cursor, flags);
        assert cursor / MEGAPAGE == k;
        Map2M(cursor, cursor, flags);
        cursor := cursor + MEGAPAGE;
        k := k + 1;
      }
    }

    /** `map_segment_pages_riscv` */
    method MapSegment(s: Segment)
      requires Sound() && Fits(s) && s.End() + PAGE <= WORD
      modifies this
      ensures Sound() && shape.big == old(shape.big)
      ensures Overlaid(old(shape.small), shape.small, shape.big, s, AlignUp(s.End()))
    {
      hide Tree, MakeLeaf, AlignUp, AlignDown, PhysBase, SegmentFlags, Dir, Overlaid, PagePte;
      NoOverlay(shape.small, shape.big, s);
      if PhysBase(s).None? {
        return;
      }
      var physBase := PhysBase(s).value;
      AlignDownIs(s.start);
      AlignUpIs(s.End());
      var start, end := AlignDown(s.start), AlignUp(s.End());
      if KERNEL_BASE <= start < KERNEL_END && physBase == start {
        return;
      }
      var flags := SegmentFlags(s.prot);
      var vaddr := start;
      while vaddr < end
        invariant Sound() && shape.big == old(shape.big)
        invariant start <= vaddr <= end && vaddr % PAGE == 0
        invariant Overlaid(old(shape.small), shape.small, shape.big, s, vaddr)
      {
        BelowTop(s, vaddr, end);
        NextPage(vaddr, end);
        ghost var small := shape.small;
        Map4K(vaddr, physBase + (vaddr - start), flags);
        OverlayStep(old(shape.small), small, shape.small, shape.big, s, vaddr);
        vaddr := vaddr + PAGE;
      }
    }
  }

  lemma NotZero(p: nat)
    requires TableAddress(p)
    ensures p != 0
  {
  }

  lemma MiddleNotRoot(mem: Memory, root: nat, sh: Shape, i: nat)
    requires Tree(mem, root, sh) && i in sh.l1
    ensures sh.l1[i] != root
  {
    hide TablesOk, ContentsOk, LeavesOk;
    UniqueRoles(mem, root, sh);
  }

  lemma VpnBound(va: nat)
    requires va < USER_TOP
    ensures Vpn(va, 2) < 512 && Vpn(va, 1) < 512 && Vpn(va, 0) < 512
  {
  }

  /** Flags of a readable kernel mapping. */
  predicate KernelFlags(flags: nat) { flags < 1024 && flags % 2 == 0 && flags / 2 % 2 == 1 }

  lemma KernelLeaf(paddr: nat, flags: nat)
    requires KernelFlags(flags)
    ensures Valid(MakeLeaf(paddr, flags)) && Leaf(MakeLeaf(paddr, flags))
  {
    hide MakeLeaf;
    MakeLeafIs(paddr, flags);
    FieldBits(paddr / PAGE, flags);
  }

  lemma NextPage(vaddr: nat, end: nat)
    requires vaddr % PAGE == 0 && end % PAGE == 0 && vaddr < end
    ensures vaddr + PAGE <= end && (vaddr + PAGE) % PAGE == 0
  {
  }

  /** A page of the segment lies in the lower half. */
  lemma BelowTop(s: Segment, vaddr: nat, end: nat)
    requires s.End() <= USER_TOP && vaddr % PAGE == 0 && vaddr < end < s.End() + PAGE && end % PAGE == 0
    ensures vaddr < USER_TOP
  {
  }

  // ----- the built table

  /** What `build_riscv_page_table` leaves: the identity windows as megapage leaves, and under no
      window the leaves of the segments in key order. */
  ghost predicate Built(mem: Memory, root: nat, sh: Shape, m: Mappings)
  {
    && Tree(mem, root, sh)
    && Windowed(sh)
    && Layered(sh, m, KeysOf(m))
  }

  /** The megapage leaves are those of the identity windows. */
  ghost predicate Windowed(sh: Shape)
  {
    forall k: nat :: At(sh.big, k) == WindowPte(k)
  }

  /** Under no megapage leaf, the leaves are those of the segments keyed in `keys`. */
  ghost predicate Layered(sh: Shape, m: Mappings, keys: seq<int>)
    requires forall i :: 0 <= i < |keys| ==> keys[i] in m
  {
    forall n: nat ::
      At(sh.small, n) == (if Dir(n) in sh.big then None else LastPte(m, keys, n))
  }

  function WindowPte(k: nat): Option<nat>
  {
    match WindowFlags(k)
    case None => None
    case Some(flags) => Some(MakeLeaf(k * MEGAPAGE, flags))
  }

  function KeysOf(m: Mappings): (keys: seq<int>)
    ensures Ascending(keys)
    ensures forall i :: 0 <= i < |keys| ==> keys[i] in m
    ensures forall k :: k in m ==> exists i :: 0 <= i < |keys| && keys[i] == k
  {
    var keys := Sorted(m.Keys);
    SortedKeys(m, keys);
    keys
  }

  /** The table of an address space.  When no page is shared by two segments, the hardware agrees with the
      segment list at every address of the lower half. */
  method BuildPageTable(m: Mappings) returns (mem: Memory, root: nat, ghost sh: Shape)
    requires WellFormed(m) && forall k :: k in m ==> Fits(m[k])
    ensures Built(mem, root, sh, m)
    ensures PageDisjoint(m) && (forall k :: k in m ==> PastFirstPage(m[k])) ==>
      forall x: nat :: x < USER_TOP ==> HardwareAgrees(mem, root, m, x)
  {
    hide HardwareAgrees, PageDisjoint, PastFirstPage;
    mem, root, sh := FillPageTable(m);
    if PageDisjoint(m) && forall k :: k in m ==> PastFirstPage(m[k]) {
      forall x: nat | x < USER_TOP
        ensures HardwareAgrees(mem, root, m, x)
      {
        BuiltAgrees(mem, root, sh, m, x);
      }
    }
  }

  /** What the walk of address `x` gives: itself in an identity window; in every page that a segment touches, beyond
      its ends too, the segment's bytes continued to the page when the table can express the segment, and a fault
      otherwise; in a page that no segment touches a fault. Where `x` is mapped that is the byte of the kernel's copy
      path. And what a program may do there: nothing in a window, which only the kernel uses; in a page of a segment
      what its protection grants. */
  ghost predicate HardwareAgrees(mem: Memory, root: nat, m: Mappings, x: nat)
    requires x < USER_TOP
  {
    if WindowAt(x).Some? then
      && Walk(mem, root, x) == Some(Translation(x, WindowAt(x).value + 1))
      && forall a :: WindowAllows(mem, root, x, a)
    else
      && (forall k :: k in m && Touches(m[k], x) ==> Walk(mem, root, x) == PageWalk(m[k], x))
      && (SegmentAt(m, x).Some? ==> Walk(mem, root, x) == SegmentWalk(m, x))
      && ((forall k :: k in m ==> !Touches(m[k], x)) ==> Walk(mem, root, x).None?)
      && (forall k, a :: k in m && Touches(m[k], x) ==>
        (Permitted(mem, root, x, a) <==> Expressible(m[k]) && Grants(m[k].prot, a)))
  }

  /** In an identity window only the kernel gets through, and fetches only from its own range. */
  ghost predicate WindowAllows(mem: Memory, root: nat, x: nat, a: Access)
    requires x < USER_TOP && WindowAt(x).Some?
  {
    && !Permitted(mem, root, x, a)
    && (KernelMay(WindowAt(x).value + 1, a) <==> (a.Fetch? ==> KERNEL_BASE <= x < KERNEL_END))
  }

  /** What a protection asks for: read, write and execute are its bits 0, 1 and 2. */
  predicate Asks(prot: nat, access: Access)
  {
    match access
    case Load => prot % 2 == 1
    case Store => prot / 2 % 2 == 1
    case Fetch => prot / 4 % 2 == 1
  }

  /** What it gets: loads unless it asks for stores alone, and stores when it asks for nothing. */
  predicate Grants(prot: nat, access: Access)
  {
    match access
    case Load => prot % 8 != 2
    case Store => (Asks(prot, Store) && prot % 8 != 2) || prot % 8 == 0
    case Fetch => Asks(prot, Fetch)
  }

  /** A program gets exactly what it asks for if and only if it asks for loads. */
  lemma GrantsIff(prot: nat)
    ensures (forall a :: Grants(prot, a) <==> Asks(prot, a)) <==> Asks(prot, Load)
  {
    LowThreeBits(prot);
    var p := prot % 8;
    assert forall a :: Asks(prot, a) <==> Asks(p, a);
    if !Asks(prot, Load) {
      assert p == 0 || p == 2 || p == 4 || p == 6;
      assert p == 2 ==> Asks(prot, Store) && !Grants(prot, Store);
      assert p != 2 ==> Grants(prot, Load);
    }
  }

  /** A page mapped for nothing can be read and written. */
  lemma NoAccessIsReadWrite()
    ensures Grants(0, Load) && Grants(0, Store) && forall a :: !Asks(0, a)
  {
  }

  /** The table can express the segment. */
  predicate Expressible(s: Segment) { Congruent(s) && !WriteOnly(s.prot) && !KernelIdentity(s) }

  /** The segment's bytes continued below its start and past its end. */
  function PageByte(s: Segment, x: nat): int
  {
    var first := match s.storage
      case Owned(base) => base + PageOffset(s.start)
      case Shared(ptr) => ptr
      case Host(ptr, _) => ptr;
    first + (x - s.start)
  }

  lemma PageByteIs(s: Segment, x: nat)
    requires s.Contains(x)
    ensures PageByte(s, x) == Backing(s, x)
  {
  }

  ghost function PageWalk(s: Segment, x: nat): Option<Translation>
  {
    if Expressible(s) && PageByte(s, x) >= 0 then Some(Translation(PageByte(s, x), SegmentFlags(s.prot) + 1)) else None
  }

  ghost function SegmentWalk(m: Mappings, x: nat): Option<Translation>
    requires SegmentAt(m, x).Some?
  {
    var s := SegmentAt(m, x).value;
    if Expressible(s) then Some(Translation(Translate(m, x), SegmentFlags(s.prot) + 1)) else None
  }

  lemma BuiltAgrees(mem: Memory, root: nat, sh: Shape, m: Mappings, x: nat)
    requires Built(mem, root, sh, m) && WellFormed(m) && PageDisjoint(m) && x < USER_TOP
    requires forall k :: k in m ==> Fits(m[k]) && PastFirstPage(m[k])
    ensures HardwareAgrees(mem, root, m, x)
  {
    hide Built, PageDisjoint, PastFirstPage, Fits, Expressible, Touches, Walk, LastPte, PageByte, PageOffset;
    hide WindowFlags, WindowAt, WellFormed, SegmentAt;
    WindowRange(x);
    if InWindow(x) {
      BuiltWalk(mem, root, sh, m, x);
      forall a ensures WindowAllows(mem, root, x, a) {
        WindowMeans(mem, root, x, a);
      }
    } else {
      forall k | k in m && Touches(m[k], x)
        ensures Walk(mem, root, x) == PageWalk(m[k], x)
      {
        TouchedWalk(mem, root, sh, m, k, x);
      }
      forall k, a | k in m && Touches(m[k], x)
        ensures Permitted(mem, root, x, a) <==> Expressible(m[k]) && Grants(m[k].prot, a)
      {
        TouchedPermits(mem, root, sh, m, k, x, a);
      }
      if SegmentAt(m, x).Some? {
        SegmentAtHolds(m, x);
        TableRefinesSegments(mem, root, sh, m, SegmentAt(m, x).value, x);
      }
      if forall k :: k in m ==> !Touches(m[k], x) {
        UntouchedFaults(mem, root, sh, m, x);
      }
    }
  }

  method FillPageTable(m: Mappings) returns (mem: Memory, root: nat, ghost sh: Shape)
    requires WellFormed(m) && forall k :: k in m ==> Fits(m[k])
    ensures Built(mem, root, sh, m)
  {
    hide Tree, Windowed, Layered, Fits, WellFormed, KeysOf;
    assert TableAddress(PAGE);
    root :| root < PHYS_LIMIT && TableAddress(root);
    hide TableAddress;
    var builder := new Sv39Builder(root);
    MapWindows(builder);
    MapSegments(builder, m, KeysOf(m));
    return builder.pages, builder.root, builder.shape;
  }

  /** The loop of `build_riscv_page_table` over the segments. */
  method MapSegments(builder: Sv39Builder, m: Mappings, keys: seq<int>)
    requires builder.Sound() && Windowed(builder.shape) && builder.shape.small == map[]
    requires WellFormed(m) && forall i :: 0 <= i < |keys| ==> keys[i] in m && Fits(m[keys[i]])
    modifies builder
    ensures builder.Sound() && Windowed(builder.shape) && Layered(builder.shape, m, keys)
  {
    hide Tree, MakeLeaf, WindowPte, Layered, Overlaid, Fits, WellFormed, AlignUp, At, LastPte, PagePte;
    var i := 0;
    NoLayers(builder.shape, m, keys);
    while i < |keys|
      invariant i <= |keys| && builder.Sound()
      invariant Windowed(builder.shape)
      invariant Layered(builder.shape, m, keys[..i])
    {
      ghost var before := builder.shape;
      SegmentEnd(m, keys[i]);
      builder.MapSegment(m[keys[i]]);
      LayerStep(before, builder.shape, m, keys, i);
      i := i + 1;
    }
    assert keys[..i] == keys;
  }

  method MapWindows(builder: Sv39Builder)
    requires builder.Sound() && builder.shape.l0 == map[] && builder.shape.big == map[] && builder.shape.small == map[]
    modifies builder
    ensures builder.Sound() && builder.shape.small == map[]
    ensures Windowed(builder.shape)
  {
    hide Tree, MakeLeaf;
    builder.MapIdentity2M(KERNEL_BASE / MEGAPAGE, KERNEL_END / MEGAPAGE, KERNEL_FLAGS);
    builder.MapIdentity2M(MMIO_BASE / MEGAPAGE, MMIO_END / MEGAPAGE, MMIO_FLAGS);
  }

  lemma SegmentEnd(m: Mappings, k: int)
    requires WellFormed(m) && k in m && Fits(m[k])
    ensures m[k].End() + PAGE <= WORD
  {
  }

  lemma NoLayers(sh: Shape, m: Mappings, keys: seq<int>)
    requires sh.small == map[]
    ensures Layered(sh, m, keys[..0])
  {
  }

  lemma LayerStep(sh: Shape, sh': Shape, m: Mappings, keys: seq<int>, i: nat)
    requires i < |keys| && (forall j :: 0 <= j < |keys| ==> keys[j] in m)
    requires Layered(sh, m, keys[..i]) && sh'.big == sh.big
    requires Overlaid(sh.small, sh'.small, sh.big, m[keys[i]], AlignUp(m[keys[i]].End()))
    ensures Layered(sh', m, keys[..i + 1])
  {
    hide PagePte, Dir, AlignUp;
    assert keys[..i + 1][..i] == keys[..i];
    forall n: nat ensures PagePte(m[keys[i]], n).Some? ==> n * PAGE < AlignUp(m[keys[i]].End()) {
      PteInRange(m[keys[i]], n);
    }
    forall n: nat
      ensures At(sh'.small, n) == (if Dir(n) in sh'.big then None else LastPte(m, keys[..i + 1], n))
    {
      assert At(sh.small, n) == (if Dir(n) in sh.big then None else LastPte(m, keys[..i], n));
    }
  }

  lemma PteInRange(s: Segment, n: nat)
    ensures PagePte(s, n).Some? ==> AlignDown(s.start) <= n * PAGE < AlignUp(s.End())
  {
  }

  // ----- what a user access meets

  /** The identity windows translate to themselves, whatever the segments are; elsewhere the walk
      sees the last segment laid over the page. */
  lemma BuiltWalk(mem: Memory, root: nat, sh: Shape, m: Mappings, va: nat)
    requires Built(mem, root, sh, m) && va < USER_TOP
    ensures Walk(mem, root, va) ==
      match WindowFlags(va / MEGAPAGE)
      case Some(flags) => Some(Translation(va, flags + 1))
      case None =>
        match LastPte(m, KeysOf(m), va / PAGE)
        case None => None
        case Some(pte) => LeafAt(pte, 0, va)
  {
    hide Tree, MakeLeaf, LastPte, LeafAt, Dir;
    WalkIsLookup(mem, root, sh, va);
    Numbers(va);
    var k, n := va / MEGAPAGE, va / PAGE;
    assert At(sh.big, k) == WindowPte(k);
    assert At(sh.small, n) == (if Dir(n) in sh.big then None else LastPte(m, KeysOf(m), n));
    WindowLeaf(va);
    EmptyLeaf(va);
  }

  lemma WindowLeaf(va: nat)
    requires va < USER_TOP
    ensures InWindow(va) ==>
      LeafAt(MakeLeaf(va / MEGAPAGE * MEGAPAGE, WindowFlags(va / MEGAPAGE).value), 1, va) ==
        Some(Translation(va, WindowFlags(va / MEGAPAGE).value + 1))
  {
    if InWindow(va) {
      hide MakeLeaf, WindowFlags, Valid, Readable, Writable, Executable, Ppn, Flags;
      var base, flags := va / MEGAPAGE * MEGAPAGE, WindowFlags(va / MEGAPAGE).value;
      WindowFlagsAre(va / MEGAPAGE);
      MegapageBase(va);
      MakeLeafIs(base, flags);
      LeafFields(base, flags);
    }
  }

  lemma MegapageBase(va: nat)
    ensures var base := va / MEGAPAGE * MEGAPAGE;
      base <= va && base % MEGAPAGE == 0 && base % PAGE == 0 && base + va % MEGAPAGE == va
  {
    var q := va / MEGAPAGE;
    MultipleMod(q, MEGAPAGE);
    MultipleMod(q * 512, PAGE);
  }

  lemma WindowFlagsAre(k: nat)
    requires WindowFlags(k).Some?
    ensures WindowFlags(k).value < 1024 && WindowFlags(k).value % 2 == 0 && WindowFlags(k).value / 2 % 2 == 1
  {
  }

  lemma EmptyLeaf(va: nat)
    ensures LeafAt(0, 0, va).None?
  {
  }

  lemma LeafFields(paddr: nat, flags: nat)
    requires flags < 1024 && flags % 2 == 0 && paddr < PHYS_LIMIT && paddr % PAGE == 0
    ensures var pte := paddr / PAGE * 1024 + flags + 1;
      && Valid(pte) && Flags(pte) == flags + 1 && Ppn(pte) * PAGE == paddr
      && (Readable(pte) <==> flags / 2 % 2 == 1)
      && (Writable(pte) <==> flags / 4 % 2 == 1)
      && (Executable(pte) <==> flags / 8 % 2 == 1)
  {
    FieldBits(paddr / PAGE, flags);
    FieldNumber(paddr / PAGE, flags);
    PageNumber(paddr);
  }

  /** A segment's leaf translates its page, unless the protection is write-only: that encoding is
      reserved, and the walk faults. */
  lemma SegmentLeaf(paddr: nat, prot: nat, va: nat)
    requires paddr < PHYS_LIMIT && paddr % PAGE == 0
    ensures LeafAt(MakeLeaf(paddr, SegmentFlags(prot)), 0, va) ==
      if WriteOnly(prot) then None else Some(Translation(paddr + va % PAGE, SegmentFlags(prot) + 1))
  {
    hide MakeLeaf;
    MakeLeafIs(paddr, SegmentFlags(prot));
    LeafFields(paddr, SegmentFlags(prot));
    ProtBits(prot);
  }

  /** The entry of every protection: a program's page, not global, accessed and dirty, with these access bits. */
  lemma SegmentFlagsMean(prot: nat)
    ensures var pte := SegmentFlags(prot) + 1;
      && pte < 256 && Valid(pte) && User(pte) && !Global(pte) && Accessed(pte) && Dirty(pte)
      && (Readable(pte) <==> prot % 8 != 2)
      && (Writable(pte) <==> prot / 2 % 2 == 1 || prot % 8 == 0)
      && (Executable(pte) <==> prot / 4 % 2 == 1)
    ensures !WriteOnly(prot) ==> forall a :: UserMay(SegmentFlags(prot) + 1, a) <==> Grants(prot, a)
  {
    LowThreeBits(prot);
    SmallFlags(prot % 8);
    assert SegmentFlags(prot) == SegmentFlags(prot % 8);
  }

  lemma SmallFlags(p: nat)
    requires p < 8
    ensures var pte := SegmentFlags(p) + 1;
      && pte < 256 && Valid(pte) && User(pte) && !Global(pte) && Accessed(pte) && Dirty(pte)
      && (Readable(pte) <==> p != 2)
      && (Writable(pte) <==> p / 2 % 2 == 1 || p == 0)
      && (Executable(pte) <==> p / 4 % 2 == 1)
  {
  }

  lemma ProtBits(prot: nat)
    ensures var f := SegmentFlags(prot);
      && f < 1024 && f % 2 == 0 && f / 16 % 2 == 1
      && (WriteOnly(prot) <==> f / 4 % 2 == 1 && f / 2 % 2 == 0)
      && (f / 2 % 2 == 1 || f / 4 % 2 == 1 || f / 8 % 2 == 1)
      && (!WriteOnly(prot) ==> f / 2 % 2 == 1)
  {
    LowThreeBits(prot);
    assert SegmentFlags(prot) == SegmentFlags(prot % 8);
  }

  lemma LowThreeBits(x: nat)
    ensures x % 8 % 2 == x % 2 && x % 8 / 2 % 2 == x / 2 % 2 && x % 8 / 4 % 2 == x / 4 % 2
  {
    var q, r := x / 8, x % 8;
    assert x == 2 * (4 * q) + r;
    Halves(x);
    Halves(r);
    EvenPart(4 * q, r);
    EvenPart(2 * q, r / 2);
    EvenPart(q, r / 2 / 2);
  }

  /** No page is shared by two segments. */
  ghost predicate PageDisjoint(m: Mappings)
  {
    forall j, k :: j in m && k in m && j < k ==> AlignUp(m[j].End()) <= AlignDown(m[k].start)
  }

  ghost predicate Touches(s: Segment, x: nat)
  {
    AlignDown(s.start) <= x / PAGE * PAGE < AlignUp(s.End())
  }

  /** The segment's bytes start at the offset into their physical page at which it starts in its own. */
  predicate Congruent(s: Segment)
  {
    match s.storage
    case Owned(base) => base % PAGE == 0
    case Shared(ptr) => ptr % PAGE == s.start % PAGE
    case Host(ptr, _) => ptr % PAGE == s.start % PAGE
  }

  /** Kernel buffers do not lie in the first page. */
  predicate PastFirstPage(s: Segment)
  {
    match s.storage
    case Owned(_) => true
    case Shared(ptr) => ptr >= PAGE
    case Host(ptr, _) => ptr >= PAGE
  }

  /** The segment is a piece of the kernel's identity range. */
  predicate KernelIdentity(s: Segment)
  {
    KERNEL_BASE <= AlignDown(s.start) < KERNEL_END && PhysBase(s) == Some(AlignDown(s.start))
  }

  lemma {:induction false} LastOfOne(m: Mappings, keys: seq<int>, n: nat, k: int)
    requires forall i :: 0 <= i < |keys| ==> keys[i] in m
    requires forall i :: 0 <= i < |keys| && keys[i] != k ==> PagePte(m[keys[i]], n).None?
    ensures k in m && (exists i :: 0 <= i < |keys| && keys[i] == k) ==> LastPte(m, keys, n) == PagePte(m[k], n)
    ensures (forall i :: 0 <= i < |keys| ==> keys[i] != k) ==> LastPte(m, keys, n).None?
  {
    hide PagePte;
    if keys != [] {
      var last := |keys| - 1;
      LastOfOne(m, keys[..last], n, k);
      if keys[last] == k && PagePte(m[k], n).None? {
        NoneLeft(m, keys[..last], n);
      }
    }
  }

  lemma {:induction false} NoneLeft(m: Mappings, keys: seq<int>, n: nat)
    requires forall i :: 0 <= i < |keys| ==> keys[i] in m && PagePte(m[keys[i]], n).None?
    ensures LastPte(m, keys, n).None?
  {
    hide PagePte;
    if keys != [] {
      NoneLeft(m, keys[..|keys| - 1], n);
    }
  }

  /** A page is translated by the segment that touches it. */
  lemma OwnerPte(m: Mappings, k: int, x: nat)
    requires WellFormed(m) && PageDisjoint(m) && k in m && Touches(m[k], x)
    ensures LastPte(m, KeysOf(m), x / PAGE) == PagePte(m[k], x / PAGE)
  {
    hide AlignUp, AlignDown, LastPte;
    var keys, n := KeysOf(m), x / PAGE;
    forall i | 0 <= i < |keys| && keys[i] != k ensures PagePte(m[keys[i]], n).None? {
      PteInRange(m[keys[i]], n);
    }
    LastOfOne(m, keys, n, k);
  }

  lemma ContainedTouches(s: Segment, x: nat)
    requires s.Contains(x) && s.End() + PAGE <= WORD
    ensures Touches(s, x)
  {
    hide AlignUp, AlignDown;
    AlignDownIs(s.start);
    AlignUpIs(s.End());
  }

  /** In every page that a segment touches the walk gives the segment's bytes continued to the page, exactly when the
      table can express the segment. */
  lemma TouchedWalk(mem: Memory, root: nat, sh: Shape, m: Mappings, k: int, x: nat)
    requires Built(mem, root, sh, m) && WellFormed(m) && PageDisjoint(m)
    requires x < USER_TOP && !InWindow(x) && k in m && Touches(m[k], x) && Fits(m[k]) && PastFirstPage(m[k])
    ensures Walk(mem, root, x) == PageWalk(m[k], x) && (Walk(mem, root, x).Some? <==> Expressible(m[k]))
  {
    hide Tree, Built, LastPte, PagePte, MakeLeaf, AlignDown, AlignUp, SegmentFlags, LeafAt, PageDisjoint;
    hide PhysBase, PageByte, Congruent, KernelIdentity, WriteOnly, Fits, PastFirstPage, Touches, KeysOf;
    var s := m[k];
    SegmentEnd(m, k);
    BuiltWalk(mem, root, sh, m, x);
    OwnerPte(m, k, x);
    CongruentPte(s, x);
    if PagePte(s, x / PAGE).Some? {
      AlignDownIs(s.start);
      SegmentLeaf(PhysBase(s).value + (x / PAGE * PAGE - AlignDown(s.start)), s.prot, x);
    }
  }

  /** There a program may do exactly what the protection grants. */
  lemma TouchedPermits(mem: Memory, root: nat, sh: Shape, m: Mappings, k: int, x: nat, a: Access)
    requires Built(mem, root, sh, m) && WellFormed(m) && PageDisjoint(m)
    requires x < USER_TOP && !InWindow(x) && k in m && Touches(m[k], x) && Fits(m[k]) && PastFirstPage(m[k])
    ensures Permitted(mem, root, x, a) <==> Expressible(m[k]) && Grants(m[k].prot, a)
  {
    hide Built, WellFormed, PageDisjoint, PageByte, Congruent, KernelIdentity, Fits, PastFirstPage, Touches;
    hide SegmentFlags, Grants, UserMay, Walk;
    TouchedWalk(mem, root, sh, m, k, x);
    SegmentFlagsMean(m[k].prot);
  }

  lemma WindowMeans(mem: Memory, root: nat, x: nat, a: Access)
    requires x < USER_TOP && WindowAt(x).Some?
    requires Walk(mem, root, x) == Some(Translation(x, WindowAt(x).value + 1))
    ensures WindowAllows(mem, root, x, a)
  {
    hide Walk;
    WindowBits();
  }

  lemma WindowBits()
    ensures forall f | f in {KERNEL_FLAGS + 1, MMIO_FLAGS + 1} ::
      !User(f) && Accessed(f) && Dirty(f) && Readable(f) && Writable(f) && (Executable(f) <==> f == KERNEL_FLAGS + 1)
  {
  }

  /** The hardware reaches the byte that the kernel's copy path reaches, exactly when the storage is
      congruent, the protection is not write-only and the segment is not the kernel's own range;
      otherwise the access faults. */
  lemma TableRefinesSegments(mem: Memory, root: nat, sh: Shape, m: Mappings, s: Segment, x: nat)
    requires Built(mem, root, sh, m) && WellFormed(m) && PageDisjoint(m)
    requires x < USER_TOP && !InWindow(x) && SegmentAt(m, x) == Some(s) && Fits(s) && PastFirstPage(s)
    ensures Walk(mem, root, x) == SegmentWalk(m, x)
  {
    hide Built, SegmentAt, PageDisjoint, PageByte, Expressible, Fits, PastFirstPage, Touches, Backing;
    SegmentAtHolds(m, x);
    SegmentEnd(m, s.start);
    ContainedTouches(s, x);
    TouchedWalk(mem, root, sh, m, s.start, x);
    PageByteIs(s, x);
  }

  /** The leaf exists for congruent storage and then names the page of the segment's bytes. */
  lemma CongruentPte(s: Segment, x: nat)
    requires Touches(s, x) && s.End() + PAGE <= WORD && Fits(s) && PastFirstPage(s)
    ensures PagePte(s, x / PAGE).Some? <==> Congruent(s) && !KernelIdentity(s)
    ensures PagePte(s, x / PAGE).Some? ==>
      && PhysBase(s).Some? && AlignDown(s.start) <= x / PAGE * PAGE
      && var p := PhysBase(s).value + (x / PAGE * PAGE - AlignDown(s.start));
         && p < PHYS_LIMIT && p % PAGE == 0 && p + x % PAGE == PageByte(s, x)
         && PagePte(s, x / PAGE) == Some(MakeLeaf(p, SegmentFlags(s.prot)))
  {
    AlignDownIs(s.start);
    AlignUpIs(s.End());
    PhysBaseIs(s, x);
    hide AlignUp, AlignDown, MakeLeaf, SegmentFlags, PageOffset, PhysBase, Congruent, PageByte, PastFirstPage;
    if PhysBase(s).Some? && PhysBase(s).value % PAGE == 0 {
      SamePhase(PhysBase(s).value, s.start, x);
    }
    SamePage4K(x);
  }

  lemma SamePage4K(x: nat)
    ensures x / PAGE * PAGE + x % PAGE == x
  {
  }

  lemma SamePhase(base: nat, start: nat, x: nat)
    requires base % PAGE == 0 && start / PAGE * PAGE <= x / PAGE * PAGE
    ensures (base + (x / PAGE * PAGE - start / PAGE * PAGE)) % PAGE == 0
  {
    var n := x / PAGE - start / PAGE;
    DivUnique(base + n * PAGE, PAGE, base / PAGE + n, 0);
  }

  /** The storage starts on a page exactly when it is congruent, and then continues the segment's bytes. */
  lemma PhysBaseIs(s: Segment, x: nat)
    requires PastFirstPage(s) && s.start < WORD
    ensures PhysBase(s).Some? && PhysBase(s).value % PAGE == 0 <==> Congruent(s)
    ensures PhysBase(s).Some? && PhysBase(s).value % PAGE == 0 ==>
      PhysBase(s).value + (x - s.start / PAGE * PAGE) == PageByte(s, x)
  {
    hide PageOffset;
    PageOffsetIsMod(s.start);
    SamePage4K(s.start);
    match s.storage {
      case Owned(_) =>
      case Shared(ptr) => PageShift(ptr, s.start);
      case Host(ptr, _) =>
        PageOffsetIsMod(ptr);
        PageShift(ptr, s.start);
    }
  }

  lemma PageShift(ptr: nat, start: nat)
    requires ptr >= PAGE
    ensures (ptr - start % PAGE) % PAGE == 0 <==> ptr % PAGE == start % PAGE
  {
    var q, a, b := ptr / PAGE, ptr % PAGE, start % PAGE;
    if a >= b {
      DivUnique(ptr - b, PAGE, q, a - b);
    } else {
      DivUnique(ptr - b, PAGE, q - 1, a - b + PAGE);
    }
  }

  /** An address in a page that no segment touches, outside the windows, faults. */
  lemma UntouchedFaults(mem: Memory, root: nat, sh: Shape, m: Mappings, x: nat)
    requires Built(mem, root, sh, m) && x < USER_TOP && !InWindow(x)
    requires forall k :: k in m ==> !Touches(m[k], x)
    ensures Walk(mem, root, x).None?
  {
    hide Tree, LastPte, MakeLeaf, AlignDown, AlignUp, PagePte, LeafAt;
    BuiltWalk(mem, root, sh, m, x);
    var keys := KeysOf(m);
    forall i | 0 <= i < |keys| ensures PagePte(m[keys[i]], x / PAGE).None? {
      PteInRange(m[keys[i]], x / PAGE);
    }
    NoneLeft(m, keys, x / PAGE);
  }
}
