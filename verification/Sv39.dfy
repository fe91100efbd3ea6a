/** The Sv39 translation of section 4.4 of the RISC-V Privileged Architecture (version 1.12): what a
page-table walk yields for an address of the lower half, and how page-table entries are laid out.
 */
module Sv39 {
  import opened Bits
  import opened Wrappers

  const MEGAPAGE: nat := 0x20_0000       // 2 MiB
  const GIGAPAGE: nat := 0x4000_0000     // 1 GiB
  const USER_TOP: nat := 0x40_0000_0000  // 2^38
  const PPN_LIMIT: nat := 0x1000_0000_0000      // 44-bit physical page numbers
  const PHYS_LIMIT: nat := 0x100_0000_0000_0000  // 56-bit physical addresses

  /** The page-table pages, by physical address. */
  type Memory = map<nat, seq<nat>>

  // ----- entries: V, R, W, X, U in bits 0 to 4, G in bit 5, A and D in bits 6 and 7, the page number from bit 10

  predicate Valid(pte: nat) { pte % 2 == 1 }

  predicate Readable(pte: nat) { pte / 2 % 2 == 1 }

  predicate Writable(pte: nat) { pte / 4 % 2 == 1 }

  predicate Executable(pte: nat) { pte / 8 % 2 == 1 }

  predicate User(pte: nat) { pte / 16 % 2 == 1 }

  predicate Global(pte: nat) { pte / 32 % 2 == 1 }

  predicate Accessed(pte: nat) { pte / 64 % 2 == 1 }

  predicate Dirty(pte: nat) { pte / 128 % 2 == 1 }

  function Flags(pte: nat): nat { pte % 1024 }

  function Ppn(pte: nat): nat { pte / 1024 % PPN_LIMIT }

  /** The reserved encoding: writable but not readable. */
  predicate Reserved(pte: nat) { Writable(pte) && !Readable(pte) }

  predicate Leaf(pte: nat) { Readable(pte) || Executable(pte) }

  datatype Translation = Translation(pa: nat, flags: nat)

  datatype Access = Load | Store | Fetch

  /** The flags of a leaf allow the access, whoever makes it; clear A and D bits fault. */
  predicate Allows(flags: nat, access: Access)
  {
    && Accessed(flags)
    && match access
       case Load => Readable(flags)
       case Store => Writable(flags) && Dirty(flags)
       case Fetch => Executable(flags)
  }

  /** A program may make the access. */
  predicate UserMay(flags: nat, access: Access) { User(flags) && Allows(flags, access) }

  /** The kernel may make it, on a page that is not a program's. */
  predicate KernelMay(flags: nat, access: Access) { !User(flags) && Allows(flags, access) }

  function Vpn(va: nat, level: nat): nat
    requires level <= 2
  {
    match level
    case 0 => va / PAGE % 512
    case 1 => va / MEGAPAGE % 512
    case 2 => va / GIGAPAGE % 512
  }

  function PageSize(level: nat): nat
    requires level <= 2
  {
    match level
    case 0 => PAGE
    case 1 => MEGAPAGE
    case 2 => GIGAPAGE
  }

  /** The walk from the table at `a`; `None` is a page fault. */
  function WalkFrom(mem: Memory, a: nat, level: nat, va: nat): Option<Translation>
    requires level <= 2
    decreases level
  {
    if a !in mem || |mem[a]| != 512 then None else
    var pte := mem[a][Vpn(va, level)];
    if !Valid(pte) || Reserved(pte) then None
    else if Leaf(pte) then
      var base := Ppn(pte) * PAGE;
      if base % PageSize(level) != 0 then None  // misaligned superpage
      else Some(Translation(base + va % PageSize(level), Flags(pte)))
    else if level == 0 then None
    else WalkFrom(mem, Ppn(pte) * PAGE, level - 1, va)
  }

  function Walk(mem: Memory, root: nat, va: nat): Option<Translation>
    requires va < USER_TOP
  {
    WalkFrom(mem, root, 2, va)
  }

  /** A program's access to an address goes through. */
  predicate Permitted(mem: Memory, root: nat, va: nat, access: Access)
    requires va < USER_TOP
  {
    Walk(mem, root, va).Some? && UserMay(Walk(mem, root, va).value.flags, access)
  }

  // ----- the entries the kernel writes

  /** `riscv_make_leaf_pte` */
  function MakeLeaf(paddr: nat, flags: nat): nat { Or(Or(paddr / PAGE * 1024, flags), 1) }

  /** `riscv_make_table_pte` */
  function MakeTable(paddr: nat): nat { Or(paddr / PAGE * 1024, 1) }

  lemma SmallPowers()
    ensures Pow2(1) == 2 && Pow2(10) == 1024
  {
    assert Pow2(5) == 32;
  }

  lemma MakeLeafIs(paddr: nat, flags: nat)
    requires flags < 1024 && flags % 2 == 0
    ensures MakeLeaf(paddr, flags) == paddr / PAGE * 1024 + flags + 1
  {
    hide Or, Pow2;
    OrFields(paddr / PAGE, flags);
  }

  lemma OrFields(q: nat, flags: nat)
    requires flags < 1024 && flags % 2 == 0
    ensures Or(Or(q * 1024, flags), 1) == q * 1024 + flags + 1
  {
    hide Or, Pow2;
    SmallPowers();
    OrIsSum(q, flags, 10);
    var h := q * 512 + flags / 2;
    assert h * 2 == q * 1024 + flags;
    OrIsSum(h, 1, 1);
  }

  lemma MakeTableIs(paddr: nat)
    ensures MakeTable(paddr) == paddr / PAGE * 1024 + 1
  {
    hide Or, Pow2;
    SmallPowers();
    OrIsSum(paddr / PAGE, 1, 10);
  }

  // ----- the fields of an entry

  lemma FieldNumber(q: nat, flags: nat)
    requires flags < 1023
    ensures (q * 1024 + flags + 1) / 1024 == q && (q * 1024 + flags + 1) % 1024 == flags + 1
  {
    DivUnique(q * 1024 + flags + 1, 1024, q, flags + 1);
  }

  lemma FieldBits(q: nat, flags: nat)
    requires flags % 2 == 0
    ensures var pte := q * 1024 + flags + 1;
      pte % 2 == 1 && pte / 2 % 2 == flags / 2 % 2 && pte / 4 % 2 == flags / 4 % 2 && pte / 8 % 2 == flags / 8 % 2
  {
    var pte := q * 1024 + flags + 1;
    Halves(pte);
    Halves(flags);
    EvenPart(q * 512, flags + 1);
    HalfBits(q, flags / 2);
  }

  lemma HalfBits(q: nat, f: nat)
    ensures var h := q * 512 + f;
      h % 2 == f % 2 && h / 2 % 2 == f / 2 % 2 && h / 2 / 2 % 2 == f / 2 / 2 % 2
  {
    EvenPart(q * 256, f);
    EvenPart(q * 128, f / 2);
    EvenPart(q * 64, f / 2 / 2);
  }

  lemma PageNumber(paddr: nat)
    requires paddr < PHYS_LIMIT && paddr % PAGE == 0
    ensures paddr / PAGE * PAGE == paddr && paddr / PAGE % PPN_LIMIT == paddr / PAGE
  {
    var q := paddr / PAGE;
    assert q * PAGE == paddr;
    DivUnique(q, PPN_LIMIT, 0, q);
  }

  /** An address at which a page-table page can live. */
  predicate TableAddress(a: nat) { 0 < a < PHYS_LIMIT && a % PAGE == 0 }

  lemma TableEntry(a: nat)
    requires TableAddress(a)
    ensures var pte := MakeTable(a);
      && Valid(pte) && !Reserved(pte) && !Leaf(pte)
      && Ppn(pte) * PAGE == a && pte / 1024 * PAGE == a
  {
    hide MakeTable;
    MakeTableIs(a);
    FieldNumber(a / PAGE, 0);
    FieldBits(a / PAGE, 0);
    PageNumber(a);
  }
}
