/** Where the pages of a position-independent ELF image land.
 */
module ElfImage {
  import opened Bits
  import opened Sequences
  import opened Wrappers
  import opened Segments
  import opened SegmentGaps
  import opened CopyPath
  import opened SegmentFrames

  // ----- frames and images

  /** The whole pages under `len` bytes at `addr`. */
  function FrameBytes(addr: nat, len: nat): nat { AlignUp(PageOffset(addr) + len) }

  /** A `PT_LOAD` program header. */
  datatype Load = Load(offset: nat, vaddr: nat, fileSize: nat, memSize: nat, prot: nat)

  /** The bytes `reserve_dynamic_load_bias` asks for. */
  function Span(minVaddr: nat, maxEnd: nat): nat
  {
    AlignUp(Max(SaturatingSub(maxEnd, AlignDown(minVaddr)), PAGE))
  }

  lemma SpanIs(minVaddr: nat, maxEnd: nat)
    requires minVaddr <= maxEnd && maxEnd + PAGE <= WORD
    ensures Span(minVaddr, maxEnd) > 0 && Span(minVaddr, maxEnd) % PAGE == 0
    ensures AlignDown(minVaddr) % PAGE == 0 && AlignDown(minVaddr) <= minVaddr
    ensures maxEnd <= AlignDown(minVaddr) + Span(minVaddr, maxEnd)
    ensures Span(minVaddr, maxEnd) <= maxEnd + 2 * PAGE
  {
    hide AlignUp, AlignDown;
    AlignDownIs(minVaddr);
    AlignUpIs(Max(SaturatingSub(maxEnd, AlignDown(minVaddr)), PAGE));
  }

  /** From the page of the lowest address to the end of the page of the highest, and at least a page. */
  lemma SpanExact(minVaddr: nat, maxEnd: nat)
    requires minVaddr <= maxEnd && maxEnd + PAGE <= WORD
    ensures Span(minVaddr, maxEnd) == Max(PAGE, (maxEnd + PAGE - 1) / PAGE * PAGE - minVaddr / PAGE * PAGE)
  {
    hide AlignUp, AlignDown;
    AlignDownIs(minVaddr);
    AlignUpIs(Max(SaturatingSub(maxEnd, AlignDown(minVaddr)), PAGE));
    CeilingShift(minVaddr, maxEnd - minVaddr);
    FloorAbove(minVaddr, 0);
  }

  /** The frames taken are those of the pages the bytes touch. */
  lemma FrameBytesIs(addr: nat, len: nat)
    requires 0 < len && len + 2 * PAGE <= WORD
    ensures FrameBytes(addr, len) == ((addr + len - 1) / PAGE - addr / PAGE + 1) * PAGE
  {
    hide AlignUp, PageOffset;
    PageOffsetIsMod(addr);
    AlignUpIs(PageOffset(addr) + len);
    CeilingShift(addr, len);
    var q, r := (addr + len - 1) / PAGE, (addr + len - 1) % PAGE;
    DivUnique(addr + len - 1 + PAGE, PAGE, q + 1, r);
  }

  /** The header counted towards the image's extent. */
  predicate InImage(ph: Load, minVaddr: nat, maxEnd: nat)
  {
    minVaddr <= ph.vaddr && ph.vaddr + ph.memSize <= maxEnd
  }

  /** The whole pages a header occupies once biased. */
  function LoadStart(ph: Load, bias: nat): nat { (ph.vaddr + bias) / PAGE * PAGE }

  function LoadEnd(ph: Load, bias: nat): nat { (ph.vaddr + bias + ph.memSize + PAGE - 1) / PAGE * PAGE }

  /** Header `i` shares no page with a later one. */
  predicate PagesApart(loads: seq<Load>, i: nat, bias: nat)
    requires i < |loads|
  {
    forall j :: i < j < |loads| ==>
      LoadEnd(loads[i], bias) <= LoadStart(loads[j], bias) || LoadEnd(loads[j], bias) <= LoadStart(loads[i], bias)
  }

  /** Outside `[lo, hi)` nothing changed. */
  ghost predicate SameOutside(m: Mappings, m': Mappings, lo: nat, hi: nat)
  {
    forall x :: !(lo <= x < hi) ==> SegmentAt(m', x) == SegmentAt(m, x)
  }

  ghost predicate ConfinedAt(m: Mappings, lo: nat, hi: nat, x: int)
  {
    SegmentAt(m, x).Some? ==>
      var s := SegmentAt(m, x).value; Misses(s, lo, hi) || (lo <= s.start && s.End() <= hi)
  }

  /** No segment reaches across an end of `[lo, hi)`. */
  ghost predicate Confined(m: Mappings, lo: nat, hi: nat)
  {
    forall x :: ConfinedAt(m, lo, hi, x)
  }

  lemma SameItself(m: Mappings, lo: nat, hi: nat)
    ensures SameOutside(m, m, lo, hi)
  {
  }

  lemma SameChain(a: Mappings, b: Mappings, c: Mappings, lo: nat, hi: nat)
    requires SameOutside(a, b, lo, hi) && SameOutside(b, c, lo, hi)
    ensures SameOutside(a, c, lo, hi)
  {
    hide SegmentAt;
  }

  /** `[lo, hi)` has protection `prot`; elsewhere the protection is as it was. */
  ghost predicate PutAt(m: Mappings, m': Mappings, lo: nat, hi: nat, prot: nat)
  {
    forall x :: ProtAt(m', x) == if lo <= x < hi then Some(prot) else ProtAt(m, x)
  }

  /** Unless a later header shares them, header `i`'s pages carry its protection. */
  ghost predicate Placed(m: Mappings, loads: seq<Load>, i: nat, bias: nat)
    requires i < |loads|
  {
    PagesApart(loads, i, bias) ==>
      forall x :: LoadStart(loads[i], bias) <= x < LoadEnd(loads[i], bias) ==>
        ProtAt(m, x) == Some(loads[i].prot)
  }

  lemma PlacedStep(m: Mappings, m': Mappings, loads: seq<Load>, n: nat, bias: nat)
    requires n < |loads|
    requires forall i :: 0 <= i < n ==> Placed(m, loads, i, bias)
    requires PutAt(m, m', LoadStart(loads[n], bias), LoadEnd(loads[n], bias), loads[n].prot)
    ensures forall i :: 0 <= i < n + 1 ==> Placed(m', loads, i, bias)
  {
    hide LoadStart, LoadEnd, ProtAt;
    forall i | 0 <= i < n ensures Placed(m', loads, i, bias) {
      assert Placed(m, loads, i, bias);
    }
  }

  // ----- contents

  /** Segment `s` is mapped whole and holds `data`. */
  ghost predicate Loaded(m: Mappings, phys: nat -> int, s: Segment, data: seq<int>)
  {
    && s.len == |data|
    && forall x: nat :: s.Contains(x) ==> SegmentAt(m, x) == Some(s) && phys(Backing(s, x)) == data[x - s.start]
  }

  /** A header's pages: zeros up to its address, its part of the file, zeros to the end of its last page. */
  function LoadBytes(ph: Load, image: seq<int>, bias: nat): seq<int>
  {
    var off := (ph.vaddr + bias) % PAGE;
    if ph.fileSize <= ph.memSize && ph.offset + ph.fileSize <= |image| then
      Zeros(off) + image[ph.offset..ph.offset + ph.fileSize]
      + Zeros(LoadEnd(ph, bias) - LoadStart(ph, bias) - off - ph.fileSize)
    else []
  }

  /** Unless a later header shares its pages, header `i` is one segment over exactly its pages and holds its bytes. */
  ghost predicate Filled(m: Mappings, phys: nat -> int, image: seq<int>, loads: seq<Load>, i: nat, bias: nat)
    requires i < |loads|
  {
    PagesApart(loads, i, bias) ==> exists s: Segment ::
      && s.start == LoadStart(loads[i], bias) && s.End() == LoadEnd(loads[i], bias) && s.prot == loads[i].prot
      && Loaded(m, phys, s, LoadBytes(loads[i], image, bias))
  }

  /** A fresh segment holds what was stored in its frames. */
  /** What can be read where header `i` was loaded: its part of the file at its own addresses, zeros in the rest of its
      pages. */
  lemma FilledReads(m: Mappings, phys: nat -> int, image: seq<int>, loads: seq<Load>, i: nat, bias: nat, x: nat)
    requires i < |loads| && Filled(m, phys, image, loads, i, bias) && PagesApart(loads, i, bias)
    requires loads[i].fileSize <= loads[i].memSize && loads[i].offset + loads[i].fileSize <= |image|
    requires LoadStart(loads[i], bias) <= x < LoadEnd(loads[i], bias)
    ensures SegmentAt(m, x).Some? && SegmentAt(m, x).value.prot == loads[i].prot
    ensures var at := loads[i].vaddr + bias;
      phys(Translate(m, x)) ==
        if at <= x < at + loads[i].fileSize then image[loads[i].offset + (x - at)] else 0
  {
    hide SegmentAt, Backing, PagesApart, LoadEnd;
    var ph := loads[i];
    var s: Segment :|
      && s.start == LoadStart(ph, bias) && s.End() == LoadEnd(ph, bias) && s.prot == ph.prot
      && Loaded(m, phys, s, LoadBytes(ph, image, bias));
    assert s.Contains(x) && SegmentAt(m, x) == Some(s);
    FloorAbove(ph.vaddr + bias, 0);
  }

  lemma StoredIsLoaded(m: Mappings, m': Mappings, phys: nat -> int, s: Segment, base: nat, data: seq<int>)
    requires Inserted(m, m', s) && s.storage == Owned(base) && s.len == |data|
    ensures Loaded(m', Store(phys, base + PageOffset(s.start), data), s, data)
  {
    hide SegmentAt, PageOffset, EditAt;
  }

  /** Storing in frames that were free changes no mapped byte. */
  lemma StoredElsewhere(m: Mappings, phys: nat -> int, base: nat, data: seq<int>, lo: nat, hi: nat)
    requires WellFormed(m) && FramesFree(m, lo, hi) && lo <= base && base + |data| <= hi
    ensures forall x: nat :: SegmentAt(m, x).Some? ==> Store(phys, base, data)(Translate(m, x)) == phys(Translate(m, x))
  {
    hide SegmentAt, Backing, FrameLo, FrameHi;
    forall x: nat | SegmentAt(m, x).Some?
      ensures Store(phys, base, data)(Translate(m, x)) == phys(Translate(m, x))
    {
      SegmentAtHolds(m, x);
      BackingInFrames(SegmentAt(m, x).value, x);
    }
  }

  /** A loaded segment stays loaded when another is inserted apart from it over free frames. */
  lemma LoadedKept(m: Mappings, m': Mappings, phys: nat -> int, s: Segment, data: seq<int>, t: Segment, base: nat,
                   stored: seq<int>, lo: nat, hi: nat)
    requires WellFormed(m) && Loaded(m, phys, s, data) && Inserted(m, m', t) && Misses(s, t.start, t.End())
    requires FramesFree(m, lo, hi) && lo <= base && base + |stored| <= hi
    ensures Loaded(m', Store(phys, base, stored), s, data)
  {
    hide SegmentAt, Backing, FramesFree;
    StoredElsewhere(m, phys, base, stored, lo, hi);
    forall x: nat | s.Contains(x)
      ensures SegmentAt(m', x) == Some(s) && Store(phys, base, stored)(Backing(s, x)) == data[x - s.start]
    {
      assert SegmentAt(m, x) == Some(s);
      assert !t.Contains(x);
      assert Translate(m, x) == Backing(s, x);
    }
  }

  /** Loading header `n` keeps the earlier headers filled and fills its own pages. */
  lemma FilledStep(m: Mappings, m': Mappings, phys: nat -> int, image: seq<int>, loads: seq<Load>, n: nat, bias: nat,
                   t: Segment, base: nat, lo: nat, hi: nat)
    requires n < |loads| && WellFormed(m) && Inserted(m, m', t)
    requires t.start == LoadStart(loads[n], bias) && t.End() == LoadEnd(loads[n], bias) && t.prot == loads[n].prot
    requires FramesFree(m, lo, hi) && lo <= base && base + |LoadBytes(loads[n], image, bias)| <= hi
    requires forall i :: 0 <= i < n ==> Filled(m, phys, image, loads, i, bias)
    requires Loaded(m', Store(phys, base, LoadBytes(loads[n], image, bias)), t, LoadBytes(loads[n], image, bias))
    ensures forall i :: 0 <= i < n + 1 ==>
      Filled(m', Store(phys, base, LoadBytes(loads[n], image, bias)), image, loads, i, bias)
  {
    hide Loaded, LoadStart, LoadEnd, LoadBytes, Inserted, FramesFree, WellFormed, Store;
    var stored := LoadBytes(loads[n], image, bias);
    forall i | 0 <= i < n
      ensures Filled(m', Store(phys, base, stored), image, loads, i, bias)
    {
      assert Filled(m, phys, image, loads, i, bias);
      if PagesApart(loads, i, bias) {
        var s: Segment :|
          && s.start == LoadStart(loads[i], bias) && s.End() == LoadEnd(loads[i], bias) && s.prot == loads[i].prot
          && Loaded(m, phys, s, LoadBytes(loads[i], image, bias));
        LoadedKept(m, m', phys, s, LoadBytes(loads[i], image, bias), t, base, stored, lo, hi);
      }
    }
  }

  /** A header of the image lands inside the reserved gap. */
  lemma LoadWithinSpan(ph: Load, base: nat, minVaddr: nat, maxEnd: nat, bias: nat)
    requires base == bias + AlignDown(minVaddr) && base % PAGE == 0
    requires maxEnd + PAGE <= WORD && minVaddr <= maxEnd && base + Span(minVaddr, maxEnd) < WORD
    requires InImage(ph, minVaddr, maxEnd)
    ensures base <= LoadStart(ph, bias) && LoadEnd(ph, bias) <= base + Span(minVaddr, maxEnd)
    ensures ph.vaddr + bias < WORD && AlignDown(ph.vaddr + bias) == LoadStart(ph, bias)
    ensures var off := ph.vaddr + bias - LoadStart(ph, bias);
      off >= 0 && AlignUp(off + ph.memSize) == LoadEnd(ph, bias) - LoadStart(ph, bias)
  {
    hide AlignUp, AlignDown, Span;
    SpanIs(minVaddr, maxEnd);
    var at := ph.vaddr + bias;
    FloorAbove(at, base);
    PagesSum(base, Span(minVaddr, maxEnd));
    CeilingBelow(at + ph.memSize, base + Span(minVaddr, maxEnd));
    CeilingShift(at, ph.memSize);
    AlignDownIs(at);
    AlignUpIs(at % PAGE + ph.memSize);
  }

  lemma FloorAbove(x: nat, base: nat)
    requires base % PAGE == 0 && base <= x
    ensures base <= x / PAGE * PAGE <= x && x - x / PAGE * PAGE == x % PAGE
  {
  }

  lemma PagesSum(a: nat, b: nat)
    requires a % PAGE == 0 && b % PAGE == 0
    ensures (a + b) % PAGE == 0
  {
  }

  lemma CeilingBelow(x: nat, end: nat)
    requires end % PAGE == 0 && x <= end
    ensures x <= (x + PAGE - 1) / PAGE * PAGE <= end
  {
  }

  /** Rounding up from within a page. */
  lemma CeilingShift(x: nat, len: nat)
    ensures (x % PAGE + len + PAGE - 1) / PAGE * PAGE == (x + len + PAGE - 1) / PAGE * PAGE - x / PAGE * PAGE
  {
    var y := x % PAGE + len + PAGE - 1;
    DivUnique(x + len + PAGE - 1, PAGE, x / PAGE + y / PAGE, y % PAGE);
  }

  lemma InsertedWithin(m: Mappings, m': Mappings, s: Segment, lo: nat, hi: nat)
    requires Confined(m, lo, hi) && Inserted(m, m', s) && lo <= s.start && s.End() <= hi
    ensures PutAt(m, m', s.start, s.End(), s.prot)
    ensures Confined(m', lo, hi) && SameOutside(m, m', lo, hi)
  {
    hide SegmentAt;
    forall x ensures true
      && ProtAt(m', x) == (if s.Contains(x) then Some(s.prot) else ProtAt(m, x))
      && ConfinedAt(m', lo, hi, x)
      && (!(lo <= x < hi) ==> SegmentAt(m', x) == SegmentAt(m, x))
    {
      assert ConfinedAt(m, lo, hi, x);
    }
  }

  lemma GapHeldNothing(m: Mappings, m': Mappings, lo: nat, hi: nat)
    requires WellFormed(m) && Vacant(m, lo, hi) && SameOutside(m, m', lo, hi)
    ensures forall x :: SegmentAt(m, x).Some? ==> SegmentAt(m', x) == SegmentAt(m, x)
  {
    forall x | SegmentAt(m, x).Some? ensures !(lo <= x < hi) {
      SegmentAtHolds(m, x);
    }
  }

  /** A gap confines nothing. */
  lemma VacantConfined(m: Mappings, lo: nat, hi: nat)
    requires WellFormed(m) && Vacant(m, lo, hi)
    ensures Confined(m, lo, hi)
  {
    forall x | SegmentAt(m, x).Some? ensures Misses(SegmentAt(m, x).value, lo, hi) {
      SegmentAtHolds(m, x);
    }
  }
}
