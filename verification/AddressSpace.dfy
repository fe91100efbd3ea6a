/** The user address space: `unmap`, `mprotect` and segment insertion cut the segment map in place;
`map_anonymous` and the ELF loader search it for a gap; `read_bytes` and `write_bytes` walk it.
 */
module AddressSpaces {
  import opened Bits
  import opened Sequences
  import opened Wrappers
  import opened Ordered
  import opened Segments
  import opened SegmentCuts
  import opened SegmentGaps
  import opened ElfImage
  import opened CopyPath
  import opened SegmentFrames
  import Sv39
  import PageTree
  import PageTable

  const EINVAL: int := 22
  const ENOMEM: int := 12
  const EFAULT: int := 14
  const ENOEXEC: int := 8
  const USER_MMAP_BASE: nat := 0x5000_0000

  /** A mapping of no bytes is a mapping of one zero byte. */
  function Padded(data: seq<int>): (r: seq<int>)
    ensures |r| > 0
  {
    if data == [] then [0] else data
  }

  class AddressSpace {
    var mappings: Mappings
    var nextMappingBase: nat
    var dirty: bool
    var nextFrame: nat    // the frame allocator's cursor
    var endFrame: nat
    var phys: nat -> int  // the bytes of physical memory
    var pages: Sv39.Memory     // the page table last built, and its root
    var root: nat
    ghost var shape: PageTree.Shape

    /** `new_user`: nothing mapped, no page table yet. */
    constructor (firstFrame: nat, endFrame: nat, phys: nat -> int)
      requires firstFrame % PAGE == 0
      ensures mappings == map[] && nextMappingBase == USER_MMAP_BASE && nextFrame == firstFrame
      ensures this.endFrame == endFrame && this.phys == phys && dirty
      ensures WellFormed(mappings) && Headroom(mappings) && nextMappingBase + PAGE <= WORD
      ensures Private(mappings, nextFrame, this.endFrame) && TableCurrent()
    {
      mappings, nextMappingBase, dirty := map[], USER_MMAP_BASE, true;
      nextFrame, this.endFrame, this.phys := firstFrame, endFrame, phys;
      pages, root, shape := map[], 0, PageTree.Shape(map[], map[], map[], map[], map[]);
    }

    /** Unless the space is marked dirty, its page table is the one its mappings call for. */
    ghost predicate TableCurrent()
      reads this
    {
      !dirty ==> PageTable.Built(pages, root, shape, mappings)
    }

    /** `token`: the root of a current page table, rebuilt only when something changed. */
    method Token() returns (token: nat)
      requires WellFormed(mappings) && TableCurrent() && forall k :: k in mappings ==> PageTable.Fits(mappings[k])
      modifies this`dirty, this`pages, this`root, this`shape
      ensures token == root && !dirty && PageTable.Built(pages, root, shape, mappings)
      ensures !old(dirty) ==> pages == old(pages) && root == old(root)
      ensures PageTable.PageDisjoint(mappings) && PastFirstPages(mappings) ==>
        forall x: nat :: x < Sv39.USER_TOP ==> PageTable.HardwareAgrees(pages, token, mappings, x)
    {
      hide PageTable.Built, PageTable.HardwareAgrees, PageTable.PageDisjoint, PageTable.PastFirstPage, WellFormed;
      hide PageTable.Fits;
      if dirty {
        pages, root, shape := PageTable.BuildPageTable(mappings);
        dirty := false;
      }
      if PageTable.PageDisjoint(mappings) && PastFirstPages(mappings) {
        forall x: nat | x < Sv39.USER_TOP
          ensures PageTable.HardwareAgrees(pages, root, mappings, x)
        {
          PageTable.BuiltAgrees(pages, root, shape, mappings, x);
        }
      }
      return root;
    }

    /** `unmap_range_inner`: walk a snapshot of the keys, cutting `[start, start + len)` out of
        every segment it meets. */
    method UnmapRange(start: nat, len: nat) returns (r: Result<()>)
      requires WellFormed(mappings)
      modifies this`mappings, this`dirty
      ensures WellFormed(mappings)
      ensures r.Err? <==> len == 0 || start + len >= WORD
      ensures r.Err? ==> r.errno == EINVAL && mappings == old(mappings) && dirty == old(dirty)
      ensures r.Ok? ==> Edited(old(mappings), mappings, start, start + len, None)
      ensures r.Ok? ==> (dirty <==> old(dirty) || !Vacant(old(mappings), start, start + len))
      ensures r.Ok? && old(Private(mappings, nextFrame, endFrame)) ==>
        (Private(mappings, nextFrame, endFrame) <==> NoOwnedSplit(old(mappings), start, start + len, None))
      ensures Marked(old(mappings), old(dirty), mappings, dirty)
    {
      hide SegmentAt, EditAt, Edited, WellFormed, Vacant, Private, NoOwnedSplit;
      if len == 0 {
        return Err(EINVAL);
      }
      if start + len >= WORD {
        return Err(EINVAL);
      }
      var changed := CutAll(start, start + len);
      EditPrivateIff(old(mappings), mappings, start, start + len, None, nextFrame, endFrame);
      VacantEditSame(old(mappings), mappings, start, start + len);
      if changed {
        dirty := true;
      }
      return Ok(());
    }

    /** The loop of `unmap_range_inner`. */
    method CutAll(start: nat, end: nat) returns (changed: bool)
      requires WellFormed(mappings) && start <= end
      modifies this`mappings
      ensures WellFormed(mappings) && Edited(old(mappings), mappings, start, end, None)
      ensures changed <==> !Vacant(old(mappings), start, end)
    {
      hide SegmentAt, EditAt, EditedSoFar, Edited, WellFormed, Vacant, AnyHit, EditedOnly, Misses;
      var keys := Sorted(mappings.Keys);
      NothingDoneYet(mappings, keys, start, end, None);
      AnyHitIsOverlap(mappings, keys, start, end);
      changed := false;
      var todo := keys;
      while todo != []
        invariant Ascending(todo) && WellFormed(mappings)
        invariant Pending(old(mappings), mappings, todo)
        invariant EditedSoFar(old(mappings), mappings, todo, start, end, None)
        invariant changed || AnyHit(old(mappings), todo, start, end) <==> !Vacant(old(mappings), start, end)
        decreases |todo|
      {
        ghost var m := mappings;
        var key := todo[0];
        if key in mappings {
          AnyHitHead(old(mappings), todo, start, end);
          if !Misses(mappings[key], start, end) {
            changed := true;
          }
          CutOne(key, start, end);
          VisitStep(old(mappings), m, mappings, todo, start, end, None);
        }
        todo := todo[1..];
      }
      AllDone(old(mappings), mappings, start, end, None);
      NoHitLeft(old(mappings), start, end);
    }

    /** One visit: remove the segment, put back what lies left and right of `[start, end)`. */
    method CutOne(key: int, start: nat, end: nat)
      requires WellFormed(mappings) && key in mappings && start <= end
      modifies this`mappings
      ensures WellFormed(mappings) && EditedOnly(old(mappings), mappings, key, start, end, None)
    {
      hide SegmentAt, WellFormed, Vacant, SliceStorage;
      var segment := mappings[key];
      var segStart, segEnd := segment.start, segment.End();
      RemoveAt(mappings, key);
      mappings := mappings - {key};
      if end <= segStart || start >= segEnd {
        InsertAt(mappings, segment);
        mappings := mappings[segStart := segment];
        return;
      }
      if start > segStart {
        var left := Slice(segment, segStart, start - segStart, segment.prot);
        InsertPiece(mappings, left, segEnd);
        mappings := mappings[left.start := left];
      }
      if end < segEnd {
        var right := Slice(segment, end, segEnd - end, segment.prot);
        VacantWithin(mappings, Max(segStart, start), segEnd, end, segEnd);
        InsertAt(mappings, right);
        mappings := mappings[right.start := right];
      }
    }

    method Unmap(addr: nat, len: nat) returns (r: Result<()>)
      requires WellFormed(mappings) && len + PAGE <= WORD
      modifies this`mappings, this`dirty
      ensures WellFormed(mappings)
      ensures r.Err? <==> len == 0 || addr + AlignUp(len) >= WORD
      ensures r.Err? ==> r.errno == EINVAL && mappings == old(mappings)
      ensures r.Ok? ==> Edited(old(mappings), mappings, addr, addr + AlignUp(len), None)
      ensures dirty == (old(dirty) || (r.Ok? && !Vacant(old(mappings), addr, addr + AlignUp(len))))
      ensures old(HostsWhole(mappings)) ==> HostsWhole(mappings)
      ensures r.Ok? && old(Private(mappings, nextFrame, endFrame)) ==>
        (Private(mappings, nextFrame, endFrame) <==> NoOwnedSplit(old(mappings), addr, addr + AlignUp(len), None))
      ensures Marked(old(mappings), old(dirty), mappings, dirty) && (old(TableCurrent()) ==> TableCurrent())
    {
      hide Private, NoOwnedSplit, SegmentAt, EditAt, Edited, WellFormed, AlignUp, PageTable.Built, HostsWhole;
      if len == 0 {
        return Err(EINVAL);
      }
      AlignUpIs(len);
      r := UnmapRange(addr, AlignUp(len));
      if r.Ok? && old(HostsWhole(mappings)) {
        EditKeepsHosts(old(mappings), mappings, addr, addr + AlignUp(len), None);
      }
    }

    /** `mprotect`: the same walk, but the middle is put back with the new protection. */
    method Mprotect(addr: nat, len: nat, prot: nat) returns (r: Result<()>)
      requires WellFormed(mappings) && len + PAGE <= WORD
      modifies this`mappings, this`dirty
      ensures WellFormed(mappings)
      ensures r.Err? <==> len == 0 || addr + AlignUp(len) >= WORD
      ensures r.Err? ==> r.errno == EINVAL && mappings == old(mappings) && dirty == old(dirty)
      ensures r.Ok? ==> dirty && Edited(old(mappings), mappings, addr, addr + AlignUp(len), Some(prot))
      ensures old(HostsWhole(mappings)) ==> HostsWhole(mappings)
      ensures r.Ok? && old(Private(mappings, nextFrame, endFrame)) ==>
        (Private(mappings, nextFrame, endFrame) <==> NoOwnedSplit(old(mappings), addr, addr + AlignUp(len), Some(prot)))
      ensures Marked(old(mappings), old(dirty), mappings, dirty) && (old(TableCurrent()) ==> TableCurrent())
    {
      hide SegmentAt, EditAt, EditedSoFar, Edited, WellFormed, EditedOnly, Private, NoOwnedSplit, AlignUp;
      hide PageTable.Built, Sorted, HostsWhole;
      if len == 0 {
        return Err(EINVAL);
      }
      AlignUpIs(len);
      var end := addr + AlignUp(len);
      if end >= WORD {
        return Err(EINVAL);
      }
      var keys := Sorted(mappings.Keys);
      NothingDoneYet(mappings, keys, addr, end, Some(prot));
      var todo := keys;
      while todo != []
        invariant Ascending(todo) && WellFormed(mappings)
        invariant Pending(old(mappings), mappings, todo)
        invariant EditedSoFar(old(mappings), mappings, todo, addr, end, Some(prot))
        decreases |todo|
      {
        ghost var m := mappings;
        var key := todo[0];
        if key in mappings {
          ProtectOne(key, addr, end, prot);
          VisitStep(old(mappings), m, mappings, todo, addr, end, Some(prot));
        }
        todo := todo[1..];
      }
      AllDone(old(mappings), mappings, addr, end, Some(prot));
      EditPrivateIff(old(mappings), mappings, addr, end, Some(prot), nextFrame, endFrame);
      if old(HostsWhole(mappings)) {
        EditKeepsHosts(old(mappings), mappings, addr, end, Some(prot));
      }
      dirty := true;
      return Ok(());
    }

    method ProtectOne(key: int, addr: nat, end: nat, prot: nat)
      requires WellFormed(mappings) && key in mappings && addr < end
      modifies this`mappings
      ensures WellFormed(mappings) && EditedOnly(old(mappings), mappings, key, addr, end, Some(prot))
    {
      hide SegmentAt, WellFormed, Vacant, SliceStorage;
      var segment := mappings[key];
      var segStart, segEnd := segment.start, segment.End();
      RemoveAt(mappings, key);
      mappings := mappings - {key};
      if end <= segStart || addr >= segEnd {
        InsertAt(mappings, segment);
        mappings := mappings[segStart := segment];
        return;
      }
      if addr > segStart {
        var left := Slice(segment, segStart, addr - segStart, segment.prot);
        InsertPiece(mappings, left, segEnd);
        mappings := mappings[left.start := left];
      }
      var midStart, midEnd := Max(segStart, addr), Min(segEnd, end);
      var mid := Slice(segment, midStart, midEnd - midStart, prot);
      InsertPiece(mappings, mid, segEnd);
      mappings := mappings[mid.start := mid];
      if end < segEnd {
        var right := Slice(segment, end, segEnd - end, segment.prot);
        InsertAt(mappings, right);
        mappings := mappings[right.start := right];
      }
    }

    // ----- inserting a segment

    /** `insert_segment`: evict what overlaps, then insert. */
    method InsertSegment(segment: Segment) returns (r: Result<()>)
      requires WellFormed(mappings) && 0 < segment.len
      modifies this`mappings, this`dirty
      ensures r.Err? <==> segment.End() >= WORD && !Vacant(old(mappings), segment.start, segment.End())
      ensures r.Err? ==> r.errno == EINVAL && mappings == old(mappings)
      ensures r.Ok? ==> dirty
      ensures segment.End() < WORD ==>
        WellFormed(mappings) && Inserted(old(mappings), mappings, segment)
      ensures segment.End() >= WORD && r.Ok? ==> mappings == old(mappings)[segment.start := segment]
      ensures Marked(old(mappings), old(dirty), mappings, dirty)
    {
      hide SegmentAt, WellFormed, EditAt, Edited;
      OverlapSaturates(mappings, segment.start, segment.End());
      if !Vacant(mappings, segment.start, SaturatingAdd(segment.start, segment.len)) {
        r := UnmapRange(segment.start, segment.len);
        if r.Err? {
          return;
        }
      } else {
        UnmapOfVacant(mappings, segment.start, segment.End());
      }
      if segment.End() < WORD {
        InsertAfterUnmap(old(mappings), mappings, segment);
      }
      mappings := mappings[segment.start := segment];
      dirty := true;
      return Ok(());
    }

    // ----- the gap search

    /** The search shared by `map_anonymous`, `map_anonymous_shared` and the ELF loader: the lowest
        page-aligned address at or above `nextMappingBase` with `len` free bytes. */
    method FindGap(len: nat) returns (r: Result<nat>)
      requires WellFormed(mappings) && Headroom(mappings) && nextMappingBase + PAGE <= WORD && 0 < len
      modifies this`nextMappingBase
      ensures r.Ok? ==> LowestGap(mappings, old(nextMappingBase), len, r.value) && nextMappingBase == r.value + len
      ensures r.Err? ==> r.errno == ENOMEM && nextMappingBase == old(nextMappingBase)
      ensures r.Err? ==> forall s: nat :: old(nextMappingBase) <= s && s % PAGE == 0 && s + len < WORD ==>
        !Vacant(mappings, s, s + len)
    {
      hide WellFormed, Headroom, Vacant, AlignUp;
      AlignUpIs(nextMappingBase);
      var start := AlignUp(nextMappingBase);
      while true
        invariant nextMappingBase == old(nextMappingBase)
        invariant start % PAGE == 0 && nextMappingBase <= start <= WORD - PAGE
        invariant AllTaken(mappings, nextMappingBase, start, len)
        decreases |EndingAbove(mappings, start)|
      {
        var o := FirstOverlapEnd(mappings, Sorted(mappings.Keys), start, SaturatingAdd(start, len));
        OverlapMeaning(mappings, start, len);
        if o.Some? {
          SkipStep(mappings, nextMappingBase, start, len, o.value);
          start := AlignUp(o.value);
        } else {
          var next := start + len;
          if next >= WORD {
            return Err(ENOMEM);
          }
          nextMappingBase := next;
          return Ok(start);
        }
      }
    }

    // ----- frames

    /** `FrameAllocator::alloc_page`, a bump allocator. */
    method AllocPage() returns (r: Option<nat>)
      requires endFrame < WORD
      modifies this`nextFrame
      ensures r.Some? <==> old(nextFrame) + PAGE <= endFrame
      ensures r.Some? ==> r.value == old(nextFrame) && nextFrame == old(nextFrame) + PAGE
      ensures r.None? ==> nextFrame == old(nextFrame)
    {
      var page := nextFrame;
      if page + PAGE >= WORD || page + PAGE > endFrame {
        return None;
      }
      nextFrame := page + PAGE;
      return Some(page);
    }

    /** `create_owned_storage`: pages are taken one at a time and only the first is remembered, so the frames have to
        be consecutive; then the bytes are copied in.  No bytes count as one zero byte. */
    method CreateOwned(addr: nat, data: seq<int>) returns (r: Result<Storage>)
      requires endFrame < WORD && |data| + 2 * PAGE <= WORD && nextFrame % PAGE == 0
      modifies this`nextFrame, this`phys
      ensures nextFrame % PAGE == 0
      ensures r.Ok? <==> old(nextFrame) + FrameBytes(addr, |Padded(data)|) <= endFrame
      ensures r.Ok? ==>
        && r.value == Owned(old(nextFrame)) && nextFrame == old(nextFrame) + FrameBytes(addr, |Padded(data)|)
        && phys == Store(old(phys), old(nextFrame) + PageOffset(addr), Padded(data))
      ensures r.Err? ==> r.errno == ENOMEM && phys == old(phys)
      ensures r.Err? ==> old(nextFrame) <= nextFrame < old(nextFrame) + FrameBytes(addr, |Padded(data)|)
      ensures r.Err? ==> Exhausted(old(nextFrame), nextFrame, endFrame)
    {
      hide AlignUp, PageOffset, Store, FrameBytes;
      var bytes := Padded(data);
      FrameSize(addr, |bytes|);
      var mapLen := AlignUp(PageOffset(addr) + |bytes|);
      var numPages := (mapLen + PAGE - 1) / PAGE;
      var first := AllocPage();
      if first.None? {
        return Err(ENOMEM);
      }
      var taken := 1;
      while taken < numPages
        invariant 1 <= taken <= numPages && phys == old(phys)
        invariant nextFrame == old(nextFrame) + taken * PAGE <= endFrame
      {
        var page := AllocPage();
        if page.None? {
          return Err(ENOMEM);
        }
        taken := taken + 1;
      }
      AlignedStays(first.value);
      var alignedBase := AlignUp(first.value);
      phys := Store(phys, alignedBase + PageOffset(addr), bytes);
      return Ok(Owned(first.value));
    }

    // ----- mapping

    /** `map_owned`: fresh frames with the given bytes, then `insert_segment`. */
    method MapOwned(addr: nat, data: seq<int>, prot: nat) returns (r: Result<()>)
      requires WellFormed(mappings) && endFrame < WORD && nextFrame % PAGE == 0
      requires addr + |Padded(data)| < WORD && |data| + 2 * PAGE <= WORD
      modifies this`mappings, this`dirty, this`nextFrame, this`phys
      ensures WellFormed(mappings) && nextFrame % PAGE == 0 && old(nextFrame) <= nextFrame
      ensures r.Ok? <==> old(nextFrame) + FrameBytes(addr, |Padded(data)|) <= endFrame
      ensures r.Ok? ==>
        var segment := Segment(addr, |Padded(data)|, prot, Owned(old(nextFrame)));
        && Inserted(old(mappings), mappings, segment) && Loaded(mappings, phys, segment, Padded(data))
        && phys == Store(old(phys), old(nextFrame) + PageOffset(addr), Padded(data))
        && FrameHi(segment) <= nextFrame <= endFrame && nextFrame == old(nextFrame) + FrameBytes(addr, |Padded(data)|)
      ensures r.Err? ==> r.errno == ENOMEM && mappings == old(mappings) && phys == old(phys)
      ensures r.Err? ==> dirty == old(dirty) && Exhausted(old(nextFrame), nextFrame, endFrame)
      ensures r.Ok? && old(Private(mappings, nextFrame, endFrame)) ==>
        (Private(mappings, nextFrame, endFrame) <==> NoOwnedSplit(old(mappings), addr, addr + |Padded(data)|, None))
      ensures Marked(old(mappings), old(dirty), mappings, dirty) && (old(TableCurrent()) ==> TableCurrent())
    {
      hide WellFormed, Inserted, Vacant, Private, NoOwnedSplit, FrameBytes, FrameLo, FrameHi, Loaded, PageOffset, Store;
      var bytes := Padded(data);
      var storage := CreateOwned(addr, data);
      if storage.Err? {
        return Err(storage.errno);
      }
      ghost var segment := Segment(addr, |bytes|, prot, storage.value);
      r := InsertSegment(Segment(addr, |bytes|, prot, storage.value));
      OwnedFrames(segment, old(nextFrame));
      InsertPrivateIff(old(mappings), mappings, segment, old(nextFrame), nextFrame, endFrame);
      StoredIsLoaded(old(mappings), mappings, old(phys), segment, old(nextFrame), bytes);
    }

    /** `map_anonymous`: a fresh mapping of zeros never evicts anything.  `room` says whether the kernel can reserve the
        buffer of zeros. */
    method MapAnonymous(len: nat, prot: nat, room: bool) returns (r: Result<nat>)
      requires WellFormed(mappings) && Headroom(mappings) && nextMappingBase + PAGE <= WORD
      requires endFrame < WORD && nextFrame % PAGE == 0 && len + 3 * PAGE <= WORD
      modifies this`mappings, this`dirty, this`nextFrame, this`nextMappingBase, this`phys
      ensures WellFormed(mappings) && Headroom(mappings) && nextMappingBase + PAGE <= WORD && nextFrame % PAGE == 0
      ensures r.Ok? ==>
        var segment := Segment(r.value, AlignUp(len), prot, Owned(old(nextFrame)));
        && room && LowestGap(old(mappings), old(nextMappingBase), AlignUp(len), r.value)
        && Added(old(mappings), mappings, segment) && Loaded(mappings, phys, segment, Zeros(AlignUp(len)))
        && nextMappingBase == r.value + AlignUp(len) && nextFrame == old(nextFrame) + AlignUp(len)
      ensures if len == 0 then nextMappingBase == old(nextMappingBase) && nextFrame == old(nextFrame)
              else CursorAfter(old(mappings), old(nextMappingBase), AlignUp(len), nextMappingBase)
      ensures r.Err? ==>
        if room && exists s: nat :: LowestGap(old(mappings), old(nextMappingBase), AlignUp(len), s)
        then len > 0 ==> Exhausted(old(nextFrame), nextFrame, endFrame) else nextFrame == old(nextFrame)
      ensures r.Err? ==> mappings == old(mappings) && phys == old(phys) && dirty == old(dirty)
      ensures r.Err? ==> r.errno == if len == 0 then EINVAL else ENOMEM
      ensures old(Private(mappings, nextFrame, endFrame)) ==> Private(mappings, nextFrame, endFrame)
      ensures old(Private(mappings, nextFrame, endFrame)) ==> BytesKept(old(mappings), old(phys), phys)
      ensures Marked(old(mappings), old(dirty), mappings, dirty) && (old(TableCurrent()) ==> TableCurrent())
      ensures len > 0 ==> (r.Ok? <==>
        && room && old(nextFrame) + AlignUp(len) <= endFrame
        && exists s: nat :: LowestGap(old(mappings), old(nextMappingBase), AlignUp(len), s))
    {
      hide WellFormed, Headroom, AlignUp, Inserted, Added, Vacant, AllTaken, Private, NoOwnedSplit, Loaded, Store;
      hide FrameHi, PageOffset, FrameBytes, BytesKept, PageTable.Built, Zeros;
      NothingWritten(mappings, phys);
      if len == 0 {
        return Err(EINVAL);
      }
      AlignUpIs(len);
      var aligned := AlignUp(len);
      r := FindGap(aligned);
      if r.Err? {
        NoLowestGap(mappings, old(nextMappingBase), aligned);
        return;
      }
      LowestGapUnique(mappings, old(nextMappingBase), aligned, r.value);
      if !room {
        return Err(ENOMEM);
      }
      var start := r.value;
      AlignedFrameBytes(start, aligned);
      var mapped := MapOwned(start, Zeros(aligned), prot);
      if mapped.Err? {
        PrivateShrinks(mappings, old(nextFrame), nextFrame, endFrame);
        return Err(mapped.errno);
      }
      ghost var segment := Segment(start, aligned, prot, Owned(old(nextFrame)));
      InsertedIntoGap(old(mappings), mappings, segment);
      GapSplitsNothing(old(mappings), start, start + aligned);
      AddedHeadroom(old(mappings), mappings, segment);
      if old(Private(mappings, nextFrame, endFrame)) {
        FreshBytes(old(mappings), old(phys), segment, old(nextFrame), Zeros(aligned), endFrame);
      }
    }

    // ----- the ELF loader

    /** `reserve_dynamic_load_bias`: a gap large enough for the whole image. */
    method ReserveLoadBias(minVaddr: nat, maxEnd: nat) returns (r: Result<nat>)
      requires WellFormed(mappings) && Headroom(mappings) && nextMappingBase + PAGE <= WORD
      requires minVaddr <= maxEnd && maxEnd + PAGE <= WORD
      modifies this`nextMappingBase
      ensures r.Ok? ==> exists base: nat ::
        && base == r.value + AlignDown(minVaddr)
        && LowestGap(mappings, old(nextMappingBase), Span(minVaddr, maxEnd), base)
      ensures r.Ok? <==> exists base: nat ::
        && LowestGap(mappings, old(nextMappingBase), Span(minVaddr, maxEnd), base) && AlignDown(minVaddr) <= base
      ensures CursorAfter(mappings, old(nextMappingBase), Span(minVaddr, maxEnd), nextMappingBase)
      ensures nextMappingBase + PAGE <= WORD
      ensures r.Err? ==> r.errno == ENOMEM
    {
      hide WellFormed, Headroom, AlignUp, AlignDown, LowestGap;
      var loadFloor := AlignDown(minVaddr);
      AlignDownIs(minVaddr);
      SpanIs(minVaddr, maxEnd);
      var found := FindGap(Span(minVaddr, maxEnd));
      if found.Err? {
        NoLowestGap(mappings, old(nextMappingBase), Span(minVaddr, maxEnd));
        return found;
      }
      LowestGapUnique(mappings, old(nextMappingBase), Span(minVaddr, maxEnd), found.value);
      GapIs(mappings, old(nextMappingBase), Span(minVaddr, maxEnd), found.value);
      PageBelow(found.value + Span(minVaddr, maxEnd));
      if found.value < loadFloor {
        return Err(ENOMEM);
      }
      return Ok(found.value - loadFloor);
    }

    /** `map_elf_segments` of a position-independent image: the extent of its headers, a gap for it, then each header
        in turn.  Nothing that was mapped before is touched, even when it fails.  `room` says for which headers the
        kernel can reserve the buffers. */
    method MapDynamicImage(loads: seq<Load>, image: seq<int>, room: nat -> bool) returns (r: Result<nat>)
      requires WellFormed(mappings) && Headroom(mappings) && nextMappingBase + PAGE <= WORD
      requires endFrame < WORD && nextFrame % PAGE == 0
      requires forall i :: 0 <= i < |loads| ==> loads[i].vaddr + loads[i].memSize + 4 * PAGE <= WORD
      modifies this`mappings, this`dirty, this`nextFrame, this`nextMappingBase, this`phys
      ensures WellFormed(mappings) && nextFrame % PAGE == 0
      ensures Headroom(mappings) && nextMappingBase + PAGE <= WORD
      ensures BadHeaders(loads) ==>
        r == Err(ENOEXEC) && nextMappingBase == old(nextMappingBase) && mappings == old(mappings) && phys == old(phys)
      ensures !BadHeaders(loads) ==>
        CursorAfter(old(mappings), old(nextMappingBase), ExtentSpan(loads), nextMappingBase)
      ensures !BadHeaders(loads) && (forall bias: nat :: !BiasAt(old(mappings), old(nextMappingBase), loads, bias)) ==>
        r == Err(ENOMEM) && mappings == old(mappings) && phys == old(phys)
      ensures forall bias: nat :: !BadHeaders(loads) && BiasAt(old(mappings), old(nextMappingBase), loads, bias) ==>
        r == Ok(bias) || (r.Err? && exists n: nat ::
          FailedAt(mappings, loads, image, room, bias, old(nextFrame), endFrame, n, r.errno))
      ensures forall x :: SegmentAt(old(mappings), x).Some? ==> SegmentAt(mappings, x) == SegmentAt(old(mappings), x)
      ensures r.Ok? ==> loads != [] && forall i :: 0 <= i < |loads| ==> Placed(mappings, loads, i, r.value)
      ensures r.Ok? && old(FramesTracked(mappings, nextFrame, endFrame)) ==>
        forall i :: 0 <= i < |loads| ==> Filled(mappings, phys, image, loads, i, r.value)
      ensures r.Ok? <==> exists bias: nat ::
        Loadable(old(mappings), old(nextMappingBase), loads, image, room, bias, old(nextFrame), endFrame)
      ensures Marked(old(mappings), old(dirty), mappings, dirty) && (old(TableCurrent()) ==> TableCurrent())
    {
      hide WellFormed, Headroom, SegmentAt, Span, AlignDown, AlignUp, Placed, Vacant, LowestGap, FramesTracked, Filled;
      hide Loadable, LoadsOk, TotalPages, Extent, FailedAt, CursorAfter, BiasAt, PageTable.Built, Confined, SameOutside;
      ghost var mmapBase := nextMappingBase;
      var extent := ImageExtent(loads);
      if extent.Err? {
        NotLoadable(mappings, mmapBase, loads, image, room, nextFrame, endFrame);
        return Err(extent.errno);
      }
      var (minVaddr, maxEnd) := extent.value;
      r := ReserveLoadBias(minVaddr, maxEnd);
      BiasFrom(mappings, mmapBase, loads, minVaddr, maxEnd);
      if r.Err? {
        NothingLoadable(mappings, mmapBase, loads, image, room, nextFrame, endFrame, minVaddr, maxEnd);
        return;
      }
      ghost var base := r.value + AlignDown(minVaddr);
      ghost var end := base + Span(minVaddr, maxEnd);
      SpanIs(minVaddr, maxEnd);
      GapIs(mappings, old(nextMappingBase), Span(minVaddr, maxEnd), base);
      PageBelow(end);
      VacantConfined(mappings, base, end);
      BiasUnique(mappings, mmapBase, loads, r.value);
      LoadableIff(mappings, mmapBase, loads, image, room, r.value, nextFrame, endFrame);
      var mapped := MapLoads(loads, image, room, base, minVaddr, maxEnd, r.value);
      GapHeldNothing(old(mappings), mappings, base, end);
      ConfinedHeadroom(old(mappings), mappings, base, end);
      if mapped.Err? {
        return Err(mapped.errno);
      }
    }

    /** The first loop of `map_elf_segments`: the extent of the headers. */
    static method ImageExtent(loads: seq<Load>) returns (r: Result<(nat, nat)>)
      requires forall i :: 0 <= i < |loads| ==> loads[i].vaddr + loads[i].memSize + 4 * PAGE <= WORD
      ensures r.Ok? <==> loads != [] && forall i :: 0 <= i < |loads| ==> loads[i].fileSize <= loads[i].memSize
      ensures r.Err? ==> r.errno == ENOEXEC
      ensures r.Ok? ==> r.value == Extent(loads) && r.value.0 <= r.value.1 && r.value.1 + 4 * PAGE <= WORD
      ensures r.Ok? ==> forall i :: 0 <= i < |loads| ==> InImage(loads[i], r.value.0, r.value.1)
      ensures r.Ok? ==> (exists i :: 0 <= i < |loads| && loads[i].vaddr == r.value.0)
      ensures r.Ok? ==> (exists i :: 0 <= i < |loads| && loads[i].vaddr + loads[i].memSize == r.value.1)
    {
      var minVaddr: nat, maxEnd: nat := WORD - 1, 0;
      for n := 0 to |loads|
        invariant maxEnd + 4 * PAGE <= WORD
        invariant n > 0 ==> minVaddr <= maxEnd
        invariant (minVaddr, maxEnd) == Extent(loads[..n])
        invariant forall i :: 0 <= i < n ==> InImage(loads[i], minVaddr, maxEnd)
        invariant n > 0 ==> exists i :: 0 <= i < n && loads[i].vaddr == minVaddr
        invariant n > 0 ==> exists i :: 0 <= i < n && loads[i].vaddr + loads[i].memSize == maxEnd
        invariant forall i :: 0 <= i < n ==> loads[i].fileSize <= loads[i].memSize
      {
        if loads[n].fileSize > loads[n].memSize {
          return Err(ENOEXEC);
        }
        assert loads[..n + 1][..n] == loads[..n];
        minVaddr := Min(minVaddr, loads[n].vaddr);
        maxEnd := Max(maxEnd, loads[n].vaddr + loads[n].memSize);
      }
      assert loads[..|loads|] == loads;
      if loads == [] {
        return Err(ENOEXEC);
      }
      return Ok((minVaddr, maxEnd));
    }

    /** The mapping loop of `map_elf_segments`, for a position-independent image. */
    method MapLoads(loads: seq<Load>, image: seq<int>, room: nat -> bool, ghost base: nat, ghost minVaddr: nat,
                    ghost maxEnd: nat, bias: nat) returns (r: Result<()>)
      requires WellFormed(mappings) && endFrame < WORD && nextFrame % PAGE == 0
      requires base == bias + AlignDown(minVaddr) && base % PAGE == 0
      requires maxEnd + PAGE <= WORD && minVaddr <= maxEnd && base + Span(minVaddr, maxEnd) < WORD
      requires Span(minVaddr, maxEnd) + 2 * PAGE <= WORD && Confined(mappings, base, base + Span(minVaddr, maxEnd))
      requires forall i :: 0 <= i < |loads| ==> InImage(loads[i], minVaddr, maxEnd)
      modifies this`mappings, this`dirty, this`nextFrame, this`phys
      ensures WellFormed(mappings) && Confined(mappings, base, base + Span(minVaddr, maxEnd)) && nextFrame % PAGE == 0
      ensures SameOutside(old(mappings), mappings, base, base + Span(minVaddr, maxEnd))
      ensures r.Ok? ==> forall i :: 0 <= i < |loads| ==> Placed(mappings, loads, i, bias)
      ensures r.Ok? && old(FramesTracked(mappings, nextFrame, endFrame)) ==>
        forall i :: 0 <= i < |loads| ==> Filled(mappings, phys, image, loads, i, bias)
      ensures loads != [] ==> (r.Ok? <==>
        LoadsOk(loads, image, room, bias) && old(nextFrame) + TotalPages(loads, |loads|, bias) <= endFrame)
      ensures r.Err? ==> exists n: nat ::
        FailedAt(mappings, loads, image, room, bias, old(nextFrame), endFrame, n, r.errno)
      ensures Marked(old(mappings), old(dirty), mappings, dirty)
    {
      hide WellFormed, AlignUp, AlignDown, Span, SegmentAt, LoadStart, LoadEnd, PagesApart, Confined, SameOutside;
      hide Filled, FramesTracked, PutIn, LoadBytes, LoadOk, LoadPages, Placed, PutAt, InImage;
      SameItself(mappings, base, base + Span(minVaddr, maxEnd));
      for n := 0 to |loads|
        invariant forall i :: 0 <= i < n ==> LoadOk(loads[i], image, room(i), bias)
        invariant nextFrame == old(nextFrame) + TotalPages(loads, n, bias)
        invariant n > 0 ==> nextFrame <= endFrame
        invariant Marked(old(mappings), old(dirty), mappings, dirty)
        invariant WellFormed(mappings) && Confined(mappings, base, base + Span(minVaddr, maxEnd))
        invariant SameOutside(old(mappings), mappings, base, base + Span(minVaddr, maxEnd)) && nextFrame % PAGE == 0
        invariant forall i :: 0 <= i < n ==> Placed(mappings, loads, i, bias)
        invariant old(FramesTracked(mappings, nextFrame, endFrame)) ==> FramesTracked(mappings, nextFrame, endFrame)
        invariant old(FramesTracked(mappings, nextFrame, endFrame)) ==>
          forall i :: 0 <= i < n ==> Filled(mappings, phys, image, loads, i, bias)
      {
        ghost var m, f, before := mappings, nextFrame, phys;
        r := MapLoad(loads[n], image, room(n), base, minVaddr, maxEnd, bias);
        SameChain(old(mappings), m, mappings, base, base + Span(minVaddr, maxEnd));
        TotalGrows(loads, n + 1, |loads|, bias);
        if r.Err? {
          assert FailedAt(mappings, loads, image, room, bias, old(nextFrame), endFrame, n, r.errno);
          return;
        }
        PlacedStep(m, mappings, loads, n, bias);
        if old(FramesTracked(mappings, nextFrame, endFrame)) {
          PutInFills(m, mappings, before, phys, image, loads, n, bias, f, nextFrame, endFrame);
        }
      }
      return Ok(());
    }

    /** One turn of that loop. */
    method MapLoad(ph: Load, image: seq<int>, room: bool, ghost base: nat, ghost minVaddr: nat, ghost maxEnd: nat,
                   bias: nat) returns (r: Result<()>)
      requires WellFormed(mappings) && endFrame < WORD && nextFrame % PAGE == 0
      requires base == bias + AlignDown(minVaddr) && base % PAGE == 0
      requires maxEnd + PAGE <= WORD && minVaddr <= maxEnd && base + Span(minVaddr, maxEnd) < WORD
      requires Span(minVaddr, maxEnd) + 2 * PAGE <= WORD && Confined(mappings, base, base + Span(minVaddr, maxEnd))
      requires InImage(ph, minVaddr, maxEnd)
      modifies this`mappings, this`dirty, this`nextFrame, this`phys
      ensures WellFormed(mappings) && Confined(mappings, base, base + Span(minVaddr, maxEnd)) && nextFrame % PAGE == 0
      ensures SameOutside(old(mappings), mappings, base, base + Span(minVaddr, maxEnd))
      ensures r.Ok? ==> PutAt(old(mappings), mappings, LoadStart(ph, bias), LoadEnd(ph, bias), ph.prot)
      ensures r.Ok? ==>
        PutIn(old(mappings), mappings, old(phys), phys, image, ph, bias, old(nextFrame), nextFrame, endFrame)
      ensures r.Ok? <==> LoadOk(ph, image, room, bias) && old(nextFrame) + LoadPages(ph, bias) <= endFrame
      ensures r.Ok? ==> nextFrame == old(nextFrame) + LoadPages(ph, bias)
      ensures r.Err? ==> r.errno == LoadError(ph, image, room, bias) && mappings == old(mappings) && phys == old(phys)
      ensures Marked(old(mappings), old(dirty), mappings, dirty)
    {
      hide WellFormed, AlignUp, AlignDown, SegmentAt, Inserted, Loaded, Store, FrameHi, Private, NoOwnedSplit;
      hide LoadStart, LoadEnd, LoadBytes, Span, Confined, SameOutside, PutAt, PutIn, PageOffset, Padded, FrameBytes;
      SameItself(mappings, base, base + Span(minVaddr, maxEnd));
      if ph.fileSize > ph.memSize {
        return Err(ENOEXEC);
      }
      var dataEnd := ph.offset + ph.fileSize;
      if dataEnd >= WORD || dataEnd > |image| {
        return Err(ENOEXEC);
      }
      LoadWithinSpan(ph, base, minVaddr, maxEnd, bias);
      LoadIsAligned(ph, bias);
      var mappedVaddr := ph.vaddr + bias;
      if mappedVaddr >= WORD {
        return Err(ENOEXEC);
      }
      var segStart := AlignDown(mappedVaddr);
      var pageOffset := mappedVaddr - segStart;
      var segMemLen := AlignUp(pageOffset + ph.memSize);
      if !room {
        return Err(ENOMEM);
      }
      if segMemLen == 0 || pageOffset + ph.fileSize > segMemLen {
        return Err(EINVAL);
      }
      var bytes := Zeros(pageOffset) + image[ph.offset..dataEnd];
      var buffer := bytes + Zeros(segMemLen - |bytes|);
      BufferIs(ph, image, bias, buffer);
      PaddedIs(buffer);
      ghost var segment := Segment(segStart, segMemLen, ph.prot, Owned(nextFrame));
      AlignedFrameBytes(segStart, segMemLen);
      r := MapOwned(segStart, buffer, ph.prot);
      if r.Ok? {
        InsertedWithin(old(mappings), mappings, segment, base, base + Span(minVaddr, maxEnd));
        PutInIs(old(mappings), mappings, old(phys), phys, image, ph, bias, old(nextFrame), nextFrame, endFrame);
      }
    }

    // ----- the copy path

    /** `read_bytes`: one segment at a time, through the kernel's view of the backing bytes.  `room` says whether the
        kernel can reserve the output. */
    method ReadBytes(addr: nat, len: nat, room: bool) returns (r: Result<seq<int>>)
      requires WellFormed(mappings)
      ensures r.Ok? <==> len == 0 || (room && Mapped(mappings, addr, addr + len))
      ensures r.Err? ==> r.errno == if room then EFAULT else ENOMEM
      ensures r.Ok? ==> |r.value| == len && Copied(mappings, phys, addr, r.value)
    {
      hide WellFormed, Translate, Mapped, SegmentAt, Backing, Copied, Find;
      if len == 0 {
        NothingWrote(mappings, phys, addr);
        return Ok([]);
      }
      if !room {
        return Err(ENOMEM);
      }
      var out: seq<int> := [];
      var cursor, remaining := addr, len;
      NothingWrote(mappings, phys, addr);
      while remaining > 0
        invariant cursor + remaining == addr + len && cursor == addr + |out|
        invariant Copied(mappings, phys, addr, out)
      {
        var found := Find(mappings, cursor);
        FindSegmentMeaning(mappings, cursor);
        if found.None? {
          NotMapped(mappings, addr, addr + len, cursor);
          return Err(EFAULT);
        }
        var segment := mappings[found.value];
        var take := Min(segment.End() - cursor, remaining);
        var chunk := Fetch(phys, Backing(segment, cursor), take);
        CopyStep(mappings, phys, addr, out, found.value, chunk);
        out := out + chunk;
        cursor := cursor + take;
        remaining := remaining - take;
      }
      CopiedIsMapped(mappings, phys, addr, out);
      return Ok(out);
    }

    /** `write_bytes`: the same walk, storing. Memory is left as byte-by-byte writing leaves it; a fault leaves the
        bytes before it written. */
    method WriteBytes(addr: nat, bytes: seq<int>) returns (r: Result<()>)
      requires WellFormed(mappings)
      modifies this`phys
      ensures r.Ok? <==> Storable(mappings, addr, addr + |bytes|)
      ensures HostsWhole(mappings) ==> (r.Ok? <==> Mapped(mappings, addr, addr + |bytes|))
      ensures r.Err? ==> r.errno == EFAULT
      ensures r.Ok? && Unaliased(mappings, addr, addr + |bytes|) ==> Copied(mappings, phys, addr, bytes)
      ensures r.Ok? && Exclusive(mappings) && (forall x: nat :: addr <= x < addr + |bytes| ==> OwnedAt(mappings, x)) ==>
        Copied(mappings, phys, addr, bytes)
      ensures r.Ok? ==> Wrote(mappings, old(phys), phys, addr, bytes)
      ensures ElsewhereSame(mappings, addr, addr + |bytes|, old(phys), phys)
      ensures r.Err? ==> exists n: nat :: StoppedAt(mappings, old(phys), phys, addr, bytes, n)
    {
      hide WellFormed, Translate, SegmentAt, Unaliased, ElsewhereSame, Copied, Backing, Store, Find, StorableAt;
      hide Exclusive, OwnedAt, Wrote, HostsWhole, Mapped;
      var cursor, written := addr, 0;
      ghost var end := addr + |bytes|;
      if HostsWhole(mappings) {
        StorableIffMapped(mappings, addr, end);
      }
      NothingWrote(mappings, phys, addr);
      assert bytes[..0] == [];
      while written < |bytes|
        invariant cursor == addr + written && written <= |bytes|
        invariant forall x :: addr <= x < cursor ==> StorableAt(mappings, x, end)
        invariant Wrote(mappings, old(phys), phys, addr, bytes[..written])
      {
        var found := Find(mappings, cursor);
        FindSegmentMeaning(mappings, cursor);
        CannotStore(mappings, cursor, end);
        WroteMeans(mappings, old(phys), phys, addr, end, bytes[..written]);
        assert !StorableAt(mappings, cursor, end) ==> StoppedAt(mappings, old(phys), phys, addr, bytes, written);
        if found.None? {
          return Err(EFAULT);
        }
        var segment := mappings[found.value];
        var offset := cursor - segment.start;
        var take := Min(segment.len - offset, |bytes| - written);
        if segment.storage.Host? && offset + take > segment.storage.hostLen {
          return Err(EFAULT);
        }
        WriteChunk(found.value, cursor, take, bytes, written, addr, old(phys));
        cursor := cursor + take;
        written := written + take;
      }
      assert bytes[..written] == bytes;
      WroteMeans(mappings, old(phys), phys, addr, end, bytes);
      if Exclusive(mappings) && forall x: nat :: addr <= x < end ==> OwnedAt(mappings, x) {
        ExclusiveUnaliased(mappings, addr, end);
      }
      return Ok(());
    }

    /** One turn of the write loop: `take` bytes into the segment at `cursor`. */
    method WriteChunk(key: int, cursor: nat, take: nat, bytes: seq<int>, written: nat, ghost addr: nat,
                      ghost before: nat -> int)
      requires WellFormed(mappings) && Holds(mappings, key, cursor) && HostRoom(mappings[key], addr + |bytes|)
      requires written < |bytes| && cursor == addr + written
      requires take == Min(mappings[key].End() - cursor, |bytes| - written)
      requires Wrote(mappings, before, phys, addr, bytes[..written])
      modifies this`phys
      ensures StorableUpTo(mappings, cursor, cursor + take, addr + |bytes|)
      ensures Wrote(mappings, before, phys, addr, bytes[..written + take])
    {
      hide Translate, SegmentAt, Backing, Store, Wrote;
      var segment := mappings[key];
      var chunk := bytes[written..written + take];
      RunOfSegment(mappings, key, cursor, cursor + take);
      WroteChunk(mappings, before, phys, addr, bytes[..written], key, chunk);
      assert bytes[..written] + chunk == bytes[..written + take];
      phys := Store(phys, Backing(segment, cursor), chunk);
    }
  }

  lemma CannotStore(m: Mappings, x: nat, hi: nat)
    requires WellFormed(m)
    ensures SegmentAt(m, x).None? ==> !StorableAt(m, x, hi)
    ensures SegmentAt(m, x).Some? ==> (StorableAt(m, x, hi) <==> HostRoom(SegmentAt(m, x).value, hi))
  {
  }

  /** Where the search for `len` bytes leaves the cursor: behind the gap it finds, even when what comes after it
      fails. */
  ghost predicate CursorAfter(m: Mappings, base: nat, len: nat, base': nat)
  {
    && (forall s: nat :: LowestGap(m, base, len, s) ==> base' == s + len)
    && ((forall s: nat :: !LowestGap(m, base, len, s)) ==> base' == base)
  }

  /** A failed allocation has taken every whole page that was left, and gives none back. */
  predicate Exhausted(first: nat, next: nat, last: nat)
  {
    (next - first) % PAGE == 0 && next + PAGE > last && (next == first || first < next <= last)
  }

  ghost predicate PastFirstPages(m: Mappings)
  {
    forall k :: k in m ==> PageTable.PastFirstPage(m[k])
  }

  /** A map that changes is marked dirty, and a mark stays. */
  predicate Marked(m: Mappings, d: bool, m': Mappings, d': bool)
  {
    (d ==> d') && (m' != m ==> d')
  }

  /** Maps with the same segment at every address are the same map. */
  lemma SameMap(m: Mappings, m': Mappings)
    requires WellFormed(m) && WellFormed(m') && forall x :: SegmentAt(m', x) == SegmentAt(m, x)
    ensures m' == m
  {
    forall k
      ensures k in m <==> k in m'
      ensures k in m ==> m[k] == m'[k]
    {
      if k in m {
        SegmentAtIs(m, k, k);
        SegmentAtHolds(m', k);
      }
      if k in m' {
        SegmentAtIs(m', k, k);
        SegmentAtHolds(m, k);
      }
    }
  }

  lemma VacantEditSame(m: Mappings, m': Mappings, lo: nat, hi: nat)
    requires WellFormed(m) && WellFormed(m') && Edited(m, m', lo, hi, None)
    ensures Vacant(m, lo, hi) ==> m' == m
  {
    hide SegmentAt, EditAt;
    if Vacant(m, lo, hi) {
      UnmapOfVacant(m, lo, hi);
      SameMap(m, m');
    }
  }

  lemma NoLowestGap(m: Mappings, base: nat, len: nat)
    requires forall s: nat :: base <= s && s % PAGE == 0 && s + len < WORD ==> !Vacant(m, s, s + len)
    ensures forall s: nat :: !LowestGap(m, base, len, s)
  {
  }

  lemma LowestGapUnique(m: Mappings, base: nat, len: nat, start: nat)
    requires LowestGap(m, base, len, start)
    ensures forall s: nat :: LowestGap(m, base, len, s) ==> s == start
  {
    hide Vacant;
  }

  lemma GapIs(m: Mappings, base: nat, len: nat, start: nat)
    requires LowestGap(m, base, len, start)
    ensures start % PAGE == 0 && start + len < WORD && Vacant(m, start, start + len)
    ensures len % PAGE == 0 ==> (start + len) % PAGE == 0
  {
  }

  lemma PageBelow(x: nat)
    requires x % PAGE == 0 && x < WORD
    ensures x + PAGE <= WORD
  {
  }

  /** What was loaded into a gap leaves the room that was there above every segment. */
  lemma ConfinedHeadroom(m: Mappings, m': Mappings, lo: nat, hi: nat)
    requires WellFormed(m) && WellFormed(m') && Headroom(m) && hi + PAGE <= WORD
    requires SameOutside(m, m', lo, hi) && Confined(m', lo, hi)
    ensures Headroom(m')
  {
    hide SegmentAt;
    forall k | k in m'
      ensures m'[k].End() + PAGE <= WORD
    {
      SegmentAtIs(m', k, k);
      assert ConfinedAt(m', lo, hi, k);
      if !(lo <= k < hi) {
        SegmentAtHolds(m, k);
      }
    }
  }

  lemma FrameSize(addr: nat, n: nat)
    requires 0 < n && n + 2 * PAGE <= WORD
    ensures FrameBytes(addr, n) == AlignUp(PageOffset(addr) + n) > 0
    ensures (FrameBytes(addr, n) + PAGE - 1) / PAGE * PAGE == FrameBytes(addr, n)
  {
    hide AlignUp, PageOffset;
    PageOffsetIsMod(addr);
    AlignUpIs(PageOffset(addr) + n);
    WholePages(AlignUp(PageOffset(addr) + n));
  }

  lemma AlignedStays(v: nat)
    requires v % PAGE == 0 && v + PAGE <= WORD
    ensures AlignUp(v) == v
  {
    hide AlignUp;
    AlignUpIs(v);
    WholePages(v);
  }

  lemma WholePages(len: nat)
    requires len % PAGE == 0
    ensures (len + PAGE - 1) / PAGE * PAGE == len
  {
  }

  lemma AlignedFrameBytes(start: nat, len: nat)
    requires start % PAGE == 0 && len % PAGE == 0 && len + PAGE <= WORD
    ensures FrameBytes(start, len) == len
  {
    hide AlignUp, PageOffset;
    PageOffsetIsMod(start);
    AlignUpIs(len);
  }

  // ----- when an image loads

  /** The lowest address and the highest end of the headers. */
  function Extent(loads: seq<Load>): (nat, nat)
  {
    if loads == [] then (WORD - 1, 0)
    else
      var last := loads[|loads| - 1];
      var (lo, hi) := Extent(loads[..|loads| - 1]);
      (Min(lo, last.vaddr), Max(hi, last.vaddr + last.memSize))
  }

  function ExtentSpan(loads: seq<Load>): nat { Span(Extent(loads).0, Extent(loads).1) }

  /** `bias` puts the extent of the headers at the lowest gap for it. */
  ghost predicate BiasAt(m: Mappings, mmapBase: nat, loads: seq<Load>, bias: nat)
  {
    LowestGap(m, mmapBase, ExtentSpan(loads), bias + AlignDown(Extent(loads).0))
  }

  lemma BiasFrom(m: Mappings, mmapBase: nat, loads: seq<Load>, lo: nat, hi: nat)
    requires (lo, hi) == Extent(loads)
    ensures forall bias: nat :: BiasAt(m, mmapBase, loads, bias) ==>
      exists base: nat :: LowestGap(m, mmapBase, Span(lo, hi), base) && AlignDown(lo) <= base
    ensures forall bias: nat :: LowestGap(m, mmapBase, Span(lo, hi), bias + AlignDown(lo)) ==>
      BiasAt(m, mmapBase, loads, bias)
    ensures ExtentSpan(loads) == Span(lo, hi)
  {
    hide LowestGap, Span, Extent, AlignDown;
  }

  lemma BiasUnique(m: Mappings, mmapBase: nat, loads: seq<Load>, bias: nat)
    requires BiasAt(m, mmapBase, loads, bias)
    ensures forall b: nat :: BiasAt(m, mmapBase, loads, b) ==> b == bias
  {
    hide LowestGap, Span, Extent, AlignDown;
    LowestGapUnique(m, mmapBase, ExtentSpan(loads), bias + AlignDown(Extent(loads).0));
  }

  function LoadPages(ph: Load, bias: nat): int { LoadEnd(ph, bias) - LoadStart(ph, bias) }

  function TotalPages(loads: seq<Load>, n: nat, bias: nat): int
    requires n <= |loads|
  {
    if n == 0 then 0 else TotalPages(loads, n - 1, bias) + LoadPages(loads[n - 1], bias)
  }

  lemma {:induction false} TotalGrows(loads: seq<Load>, n: nat, m: nat, bias: nat)
    requires n <= m <= |loads|
    ensures TotalPages(loads, n, bias) <= TotalPages(loads, m, bias)
    decreases m - n
  {
    if n < m {
      TotalGrows(loads, n, m - 1, bias);
      LoadPagesIs(loads[m - 1], bias);
    }
  }

  lemma LoadPagesIs(ph: Load, bias: nat)
    ensures LoadPages(ph, bias) >= 0
  {
  }

  /** The header is well formed, its part of the file exists, it has a page, and its buffers can be reserved. */
  predicate LoadOk(ph: Load, image: seq<int>, room: bool, bias: nat)
  {
    && ph.fileSize <= ph.memSize && ph.offset + ph.fileSize < WORD && ph.offset + ph.fileSize <= |image|
    && room && LoadPages(ph, bias) > 0
  }

  /** The error when it does not load: bad headers first, then buffers, then pages and frames. */
  function LoadError(ph: Load, image: seq<int>, room: bool, bias: nat): int
  {
    if ph.fileSize > ph.memSize || ph.offset + ph.fileSize >= WORD || ph.offset + ph.fileSize > |image| then ENOEXEC
    else if room && LoadPages(ph, bias) <= 0 then EINVAL
    else ENOMEM
  }

  predicate BadHeaders(loads: seq<Load>)
  {
    loads == [] || exists i :: 0 <= i < |loads| && loads[i].fileSize > loads[i].memSize
  }

  /** Loading stopped at header `n`, the first that is not in order or for which the frames run out, with those before
      it in place. */
  ghost predicate FailedAt(m: Mappings, loads: seq<Load>, image: seq<int>, room: nat -> bool, bias: nat, first: nat,
                           last: nat, n: nat, errno: int)
  {
    && n < |loads| && errno == LoadError(loads[n], image, room(n), bias)
    && !(LoadOk(loads[n], image, room(n), bias) && first + TotalPages(loads, n + 1, bias) <= last)
    && (forall i :: 0 <= i < n ==> LoadOk(loads[i], image, room(i), bias))
    && (n > 0 ==> first + TotalPages(loads, n, bias) <= last)
    && (forall i :: 0 <= i < n ==> Placed(m, loads, i, bias))
  }

  predicate LoadsOk(loads: seq<Load>, image: seq<int>, room: nat -> bool, bias: nat)
  {
    forall i :: 0 <= i < |loads| ==> LoadOk(loads[i], image, room(i), bias)
  }

  /** The image loads at `bias`: the lowest gap for its extent is there, every header is in order, and there are frames
      for all of them. */
  ghost predicate Loadable(m: Mappings, mmapBase: nat, loads: seq<Load>, image: seq<int>, room: nat -> bool, bias: nat,
                           first: nat, last: nat)
  {
    && loads != [] && BiasAt(m, mmapBase, loads, bias)
    && LoadsOk(loads, image, room, bias) && first + TotalPages(loads, |loads|, bias) <= last
  }

  lemma NotLoadable(m: Mappings, mmapBase: nat, loads: seq<Load>, image: seq<int>, room: nat -> bool, first: nat,
                    last: nat)
    requires loads == [] || exists i :: 0 <= i < |loads| && loads[i].fileSize > loads[i].memSize
    ensures forall bias: nat :: !Loadable(m, mmapBase, loads, image, room, bias, first, last)
  {
    hide LowestGap, Span, Extent, TotalPages, LoadPages;
    if loads != [] {
      var n :| 0 <= n < |loads| && loads[n].fileSize > loads[n].memSize;
      forall bias: nat
        ensures !Loadable(m, mmapBase, loads, image, room, bias, first, last)
      {
        assert !LoadOk(loads[n], image, room(n), bias);
      }
    }
  }

  lemma NothingLoadable(m: Mappings, mmapBase: nat, loads: seq<Load>, image: seq<int>, room: nat -> bool, first: nat,
                        last: nat, lo: nat, hi: nat)
    requires (lo, hi) == Extent(loads)
    requires forall base: nat :: LowestGap(m, mmapBase, Span(lo, hi), base) ==> base < AlignDown(lo)
    ensures forall bias: nat :: !Loadable(m, mmapBase, loads, image, room, bias, first, last)
  {
    hide LowestGap, Span, Extent, TotalPages, LoadsOk, AlignDown;
    forall bias: nat
      ensures !Loadable(m, mmapBase, loads, image, room, bias, first, last)
    {
      var base: nat := bias + AlignDown(lo);
      assert !LowestGap(m, mmapBase, Span(lo, hi), base);
    }
  }

  lemma LoadableIff(m: Mappings, mmapBase: nat, loads: seq<Load>, image: seq<int>, room: nat -> bool, bias: nat,
                    first: nat, last: nat)
    requires loads != [] && BiasAt(m, mmapBase, loads, bias)
    ensures (exists b: nat :: Loadable(m, mmapBase, loads, image, room, b, first, last)) <==>
      LoadsOk(loads, image, room, bias) && first + TotalPages(loads, |loads|, bias) <= last
  {
    hide BiasAt, TotalPages, LoadsOk;
    BiasUnique(m, mmapBase, loads, bias);
    assert Loadable(m, mmapBase, loads, image, room, bias, first, last) <==>
      LoadsOk(loads, image, room, bias) && first + TotalPages(loads, |loads|, bias) <= last;
    forall b: nat | Loadable(m, mmapBase, loads, image, room, b, first, last)
      ensures b == bias
    {
    }
  }

  /** Mapped bytes read as before. */
  ghost predicate BytesKept(m: Mappings, before: nat -> int, after: nat -> int)
  {
    forall x: nat :: SegmentAt(m, x).Some? ==> after(Translate(m, x)) == before(Translate(m, x))
  }

  lemma NothingWritten(m: Mappings, phys: nat -> int)
    ensures BytesKept(m, phys, phys)
  {
  }

  lemma FreshBytes(m: Mappings, phys: nat -> int, s: Segment, base: nat, data: seq<int>, last: nat)
    requires WellFormed(m) && Private(m, base, last)
    requires s.storage == Owned(base) && s.len == |data| && FrameHi(s) <= last
    ensures BytesKept(m, phys, Store(phys, base + PageOffset(s.start), data))
  {
    hide SegmentAt, PageOffset, WellFormed, FramesFree, Exclusive, Addressable;
    StoredElsewhere(m, phys, base + PageOffset(s.start), data, base, last);
  }

  /** The free frames are nobody's. */
  ghost predicate FramesTracked(m: Mappings, next: nat, last: nat)
  {
    FramesFree(m, next, last) && Addressable(m)
  }

  /** A header was put in as one segment over its pages, in the first of the free frames. */
  ghost predicate PutIn(m: Mappings, m': Mappings, phys: nat -> int, phys': nat -> int, image: seq<int>, ph: Load,
                        bias: nat, first: nat, next: nat, last: nat)
  {
    var data := LoadBytes(ph, image, bias);
    var s := Segment(LoadStart(ph, bias), |data|, ph.prot, Owned(first));
    && s.End() == LoadEnd(ph, bias) && s.len > 0
    && Inserted(m, m', s) && Loaded(m', phys', s, data)
    && phys' == Store(phys, first, data) && FrameHi(s) <= next <= last
  }

  lemma PutInFills(m: Mappings, m': Mappings, phys: nat -> int, phys': nat -> int, image: seq<int>, loads: seq<Load>,
                   n: nat, bias: nat, first: nat, next: nat, last: nat)
    requires n < |loads| && WellFormed(m) && WellFormed(m') && FramesTracked(m, first, last)
    requires PutIn(m, m', phys, phys', image, loads[n], bias, first, next, last)
    requires forall i :: 0 <= i < n ==> Filled(m, phys, image, loads, i, bias)
    ensures FramesTracked(m', next, last)
    ensures forall i :: 0 <= i < n + 1 ==> Filled(m', phys', image, loads, i, bias)
  {
    hide Filled, LoadBytes, LoadStart, LoadEnd, Inserted, Loaded, Store, WellFormed, FramesFree, Addressable;
    var data := LoadBytes(loads[n], image, bias);
    var s := Segment(LoadStart(loads[n], bias), |data|, loads[n].prot, Owned(first));
    FrameBounds(s, first);
    FilledStep(m, m', phys, image, loads, n, bias, s, first, first, last);
    FramesFreeWithin(m, first, last, next, last);
    InsertKeepsFrames(m, m', s, next, last);
  }

  lemma FrameBounds(s: Segment, base: nat)
    requires s.storage == Owned(base)
    ensures FrameLo(s) == base && FrameHi(s) >= base + s.len
  {
    hide PageOffset;
  }

  lemma PaddedIs(data: seq<int>)
    requires data != []
    ensures Padded(data) == data
  {
  }

  lemma LoadIsAligned(ph: Load, bias: nat)
    ensures LoadStart(ph, bias) % PAGE == 0 && PageOffset(LoadStart(ph, bias)) == 0
    ensures LoadPages(ph, bias) % PAGE == 0 && ph.vaddr + bias + ph.memSize <= LoadEnd(ph, bias)
  {
    PageOffsetIsMod(LoadStart(ph, bias));
  }

  lemma PutInIs(m: Mappings, m': Mappings, phys: nat -> int, phys': nat -> int, image: seq<int>, ph: Load, bias: nat,
                first: nat, next: nat, last: nat)
    requires var data := LoadBytes(ph, image, bias);
      var s := Segment(LoadStart(ph, bias), |data|, ph.prot, Owned(first));
      && s.End() == LoadEnd(ph, bias) && s.len > 0 && Inserted(m, m', s) && Loaded(m', phys', s, data)
      && phys' == Store(phys, first + PageOffset(s.start), data) && FrameHi(s) <= next <= last
    ensures PutIn(m, m', phys, phys', image, ph, bias, first, next, last)
  {
    hide LoadStart, LoadEnd, LoadBytes, Inserted, Loaded, Store, FrameHi, PageOffset;
    LoadIsAligned(ph, bias);
  }

  /** The buffer that `map_fixed_bytes` fills holds the header's bytes. */
  lemma BufferIs(ph: Load, image: seq<int>, bias: nat, buffer: seq<int>)
    requires ph.fileSize <= ph.memSize && ph.offset + ph.fileSize <= |image|
    requires var off := ph.vaddr + bias - LoadStart(ph, bias);
      var len := LoadEnd(ph, bias) - LoadStart(ph, bias);
      && off >= 0 && off + ph.fileSize <= len
      && var bytes := Zeros(off) + image[ph.offset..ph.offset + ph.fileSize];
         buffer == bytes + Zeros(len - |bytes|)
    ensures buffer == LoadBytes(ph, image, bias)
    ensures |buffer| == LoadEnd(ph, bias) - LoadStart(ph, bias)
  {
    assert ph.vaddr + bias - LoadStart(ph, bias) == (ph.vaddr + bias) % PAGE;
  }

  /** The frames taken for a segment are the ones it reaches. */
  lemma OwnedFrames(s: Segment, base: nat)
    requires s.storage == Owned(base) && s.len + 2 * PAGE <= WORD
    ensures FrameLo(s) == base && FrameHi(s) <= base + FrameBytes(s.start, s.len)
  {
    hide AlignUp, PageOffset;
    PageOffsetIsMod(s.start);
    AlignUpIs(PageOffset(s.start) + s.len);
  }

  lemma PrivateShrinks(m: Mappings, first: nat, next: nat, last: nat)
    requires first <= next
    ensures Private(m, first, last) ==> Private(m, next, last)
  {
  }

  lemma AddedHeadroom(m: Mappings, m': Mappings, s: Segment)
    requires WellFormed(m) && WellFormed(m') && Added(m, m', s) && Headroom(m) && s.End() + PAGE <= WORD
    ensures Headroom(m')
  {
    forall k | k in m'
      ensures m'[k].End() + PAGE <= WORD
    {
      SegmentAtIs(m', k, k);
      if !s.Contains(k) {
        SegmentAtHolds(m, k);
      }
    }
  }
}
