/** The segment list of a user address space: a map from start address to segment, read as a partial
function from addresses to protection and backing byte.
 */
module Segments {
  import opened Bits
  import opened Wrappers

  /** Where a segment's bytes live. */
  datatype Storage =
    | Owned(physBase: nat)         // frames; translated through the page offset of the segment
    | Shared(ptr: nat)             // a kernel buffer
    | Host(hostPtr: nat, hostLen: nat)

  datatype Segment = Segment(start: nat, len: nat, prot: nat, storage: Storage)
  {
    function End(): nat { start + len }

    predicate Contains(x: int) { start <= x < End() }
  }

  type Mappings = map<int, Segment>

  function PageOffset(x: nat): nat { And(x, PAGE - 1) }

  /** The byte that the kernel's copy path touches for address `x` of segment `s`. */
  function Backing(s: Segment, x: nat): nat
    requires s.Contains(x)
  {
    var offset := x - s.start;
    match s.storage
    case Owned(base) => base + PageOffset(s.start) + offset
    case Shared(ptr) => ptr + offset
    case Host(ptr, _) => ptr + offset
  }

  function SliceStorage(s: Segment, start: nat, len: nat): Storage
    requires s.start <= start
  {
    var offset := start - s.start;
    match s.storage
    case Owned(base) => Owned(base)
    case Shared(ptr) => Shared(SaturatingAdd(ptr, offset))
    case Host(ptr, _) => Host(SaturatingAdd(ptr, offset), len)
  }

  function Slice(s: Segment, start: nat, len: nat, prot: nat): Segment
    requires s.start <= start
  {
    Segment(start, len, prot, SliceStorage(s, start, len))
  }

  /** A host segment is backed for exactly its own length. */
  predicate HostWhole(s: Segment) { s.storage.Host? ==> s.storage.hostLen == s.len }

  ghost predicate HostsWhole(m: Mappings) { forall k :: k in m ==> HostWhole(m[k]) }

  /** Keyed by start, non-empty, below the top of the address space, pairwise disjoint. */
  predicate WellFormed(m: Mappings)
  {
    && (forall k :: k in m ==> m[k].start == k && 0 < m[k].len && m[k].End() < WORD)
    && (forall j, k :: j in m && k in m && j < k ==> m[j].End() <= k)
  }

  /** No segment meets `[lo, hi)`. */
  predicate Vacant(m: Mappings, lo: nat, hi: nat)
  {
    forall k :: k in m ==> m[k].End() <= lo || hi <= k
  }

  predicate Holds(m: Mappings, k: int, x: int)
  {
    k in m && m[k].Contains(x)
  }

  /** The segment at address `x`. */
  ghost function SegmentAt(m: Mappings, x: int): (o: Option<Segment>)
    ensures o.Some? ==> o.value.Contains(x)
  {
    if exists k :: Holds(m, k, x) then
      var k :| Holds(m, k, x);
      Some(m[k])
    else
      None
  }

  ghost function ProtAt(m: Mappings, x: int): Option<nat>
  {
    match SegmentAt(m, x)
    case None => None
    case Some(s) => Some(s.prot)
  }

  lemma SegmentAtIs(m: Mappings, k: int, x: int)
    requires WellFormed(m) && Holds(m, k, x)
    ensures SegmentAt(m, x) == Some(m[k])
  {
    assert forall j :: Holds(m, j, x) ==> j == k;
  }

  lemma SegmentAtHolds(m: Mappings, x: int)
    requires WellFormed(m) && SegmentAt(m, x).Some?
    ensures var s := SegmentAt(m, x).value; Holds(m, s.start, x) && m[s.start] == s
  {
  }

  // ----- page rounding

  /** `align_up(v, PAGE_SIZE)` */
  function AlignUp(v: nat): nat { And((v + PAGE - 1) % WORD, Not(PAGE - 1)) }

  /** `align_down(v, PAGE_SIZE)` */
  function AlignDown(v: nat): nat { And(v, Not(PAGE - 1)) }

  lemma AlignUpIs(v: nat)
    requires v + PAGE - 1 < WORD
    ensures AlignUp(v) == (v + PAGE - 1) / PAGE * PAGE
    ensures AlignUp(v) % PAGE == 0 && v <= AlignUp(v) < v + PAGE
  {
    WordIsPow2();
    RoundDownMask(v + PAGE - 1, 12);
    hide And, Not, Pow2;
    DivUnique(v + PAGE - 1, WORD, 0, v + PAGE - 1);
    Floor(v + PAGE - 1);
  }

  lemma Floor(x: nat)
    ensures x - x % PAGE == x / PAGE * PAGE && x / PAGE * PAGE % PAGE == 0
    ensures x / PAGE * PAGE <= x < x / PAGE * PAGE + PAGE
  {
    MultipleMod(x / PAGE, PAGE);
  }

  lemma AlignDownIs(v: nat)
    requires v < WORD
    ensures AlignDown(v) == v / PAGE * PAGE
    ensures AlignDown(v) % PAGE == 0 && AlignDown(v) <= v < AlignDown(v) + PAGE
  {
    WordIsPow2();
    RoundDownMask(v, 12);
    hide And, Not, Pow2;
    Floor(v);
  }

  // ----- two elementary edits

  lemma RemoveAt(m: Mappings, k: int)
    requires WellFormed(m) && k in m
    ensures k >= 0 && WellFormed(m - {k}) && Vacant(m - {k}, k, m[k].End())
    ensures m[k].start == k && 0 < m[k].len && m[k].End() < WORD
    ensures forall x :: SegmentAt(m - {k}, x) == if m[k].Contains(x) then None else SegmentAt(m, x)
  {
    var m' := m - {k};
    forall x ensures SegmentAt(m', x) == if m[k].Contains(x) then None else SegmentAt(m, x) {
      if m[k].Contains(x) {
        if j :| Holds(m', j, x) {
          SegmentAtIs(m, j, x);
          SegmentAtIs(m, k, x);
        }
      } else if j :| Holds(m, j, x) {
        SegmentAtIs(m, j, x);
        SegmentAtIs(m', j, x);
      } else {
        assert forall j :: Holds(m', j, x) ==> Holds(m, j, x);
      }
    }
  }

  lemma InsertAt(m: Mappings, s: Segment)
    requires WellFormed(m) && 0 < s.len && s.End() < WORD && Vacant(m, s.start, s.End())
    ensures WellFormed(m[s.start := s]) && s.start !in m
    ensures forall x :: SegmentAt(m[s.start := s], x) == if s.Contains(x) then Some(s) else SegmentAt(m, x)
  {
    var m' := m[s.start := s];
    assert s.start !in m && WellFormed(m');
    forall x ensures SegmentAt(m', x) == if s.Contains(x) then Some(s) else SegmentAt(m, x) {
      InsertedSegmentAt(m, s, x);
    }
  }

  lemma InsertedSegmentAt(m: Mappings, s: Segment, x: int)
    requires WellFormed(m) && s.start !in m && WellFormed(m[s.start := s])
    ensures SegmentAt(m[s.start := s], x) == if s.Contains(x) then Some(s) else SegmentAt(m, x)
  {
    hide WellFormed;
    var m' := m[s.start := s];
    if s.Contains(x) {
      SegmentAtIs(m', s.start, x);
    } else if j :| Holds(m, j, x) {
      SegmentAtIs(m, j, x);
      SegmentAtIs(m', j, x);
    } else {
      assert forall j :: Holds(m', j, x) ==> Holds(m, j, x);
    }
  }

  /** One piece at the front of a gap leaves the rest of the gap. */
  lemma InsertPiece(m: Mappings, s: Segment, hi: nat)
    requires WellFormed(m) && 0 < s.len && s.End() <= hi < WORD && Vacant(m, s.start, hi)
    ensures WellFormed(m[s.start := s]) && Vacant(m[s.start := s], s.End(), hi) && s.start !in m
    ensures forall x :: SegmentAt(m[s.start := s], x) == if s.Contains(x) then Some(s) else SegmentAt(m, x)
  {
    hide WellFormed, SegmentAt, Vacant;
    VacantWithin(m, s.start, hi, s.start, s.End());
    VacantWithin(m, s.start, hi, s.End(), hi);
    InsertAt(m, s);
    VacantAfterInsert(m, s, s.End(), hi);
  }

  lemma VacantAfterInsert(m: Mappings, s: Segment, lo: nat, hi: nat)
    requires Vacant(m, lo, hi) && (s.End() <= lo || hi <= s.start)
    ensures Vacant(m[s.start := s], lo, hi)
  {
  }

  lemma VacantWithin(m: Mappings, lo: nat, hi: nat, a: nat, b: nat)
    requires Vacant(m, lo, hi) && lo <= a <= b <= hi
    ensures Vacant(m, a, b)
  {
  }

  // ----- what an unmap and an mprotect leave at one address

  /** `[lo, hi)` misses the segment. */
  predicate Misses(s: Segment, lo: nat, hi: nat) { hi <= s.start || lo >= s.End() }

  /** The segment left at `x` by an edit of `[lo, hi)`, given the one that was there: outside the
      range a slice of it, inside nothing (an unmap) or a slice with the new protection. */
  function EditAt(o: Option<Segment>, lo: nat, hi: nat, prot: Option<nat>, x: int): Option<Segment>
    requires o.Some? ==> o.value.Contains(x)
  {
    match o
    case None => None
    case Some(s) =>
      if Misses(s, lo, hi) then Some(s)
      else if x < lo then Some(Slice(s, s.start, lo - s.start, s.prot))
      else if x < hi then
        if prot.None? then None
        else
          var from, to := Max(s.start, lo), Min(s.End(), hi);
          Some(Slice(s, from, to - from, prot.value))
      else Some(Slice(s, hi, s.End() - hi, s.prot))
  }

  ghost predicate Edited(m: Mappings, m': Mappings, lo: nat, hi: nat, prot: Option<nat>)
  {
    forall x :: SegmentAt(m', x) == EditAt(SegmentAt(m, x), lo, hi, prot, x)
  }

  /** As a function from addresses to protection, an unmap is exactly range removal. */
  lemma UnmapProt(m: Mappings, m': Mappings, lo: nat, hi: nat, x: int)
    requires Edited(m, m', lo, hi, None) && lo <= hi
    ensures ProtAt(m', x) == if lo <= x < hi then None else ProtAt(m, x)
  {
    assert SegmentAt(m', x) == EditAt(SegmentAt(m, x), lo, hi, None, x);
  }

  /** As a function from addresses to protection, an mprotect overrides what is mapped in the range. */
  lemma ProtectProt(m: Mappings, m': Mappings, lo: nat, hi: nat, prot: nat, x: int)
    requires Edited(m, m', lo, hi, Some(prot)) && lo <= hi
    ensures ProtAt(m', x) == if lo <= x < hi && ProtAt(m, x).Some? then Some(prot) else ProtAt(m, x)
  {
    assert SegmentAt(m', x) == EditAt(SegmentAt(m, x), lo, hi, Some(prot), x);
  }

  // ----- what that means for the backing byte

  predicate SamePage(a: nat, b: nat) { a / PAGE == b / PAGE }

  lemma PageOffsetIsMod(x: nat)
    ensures PageOffset(x) == x % PAGE
  {
    WordIsPow2();
    AndLowMask(x, 12);
  }

  /** Slicing keeps the backing byte of an address for shared and host storage, and for owned
      frames exactly when the slice starts in the page in which the segment starts. */
  lemma SliceBacking(s: Segment, start: nat, len: nat, prot: nat, x: nat)
    requires s.Contains(x) && s.start <= start && Slice(s, start, len, prot).Contains(x)
    requires !s.storage.Owned? ==> Backing(s, s.start) + s.len < WORD
    ensures Backing(Slice(s, start, len, prot), x) == Backing(s, x) <==>
            (s.storage.Owned? ==> SamePage(start, s.start))
  {
    PageOffsetIsMod(s.start);
    PageOffsetIsMod(start);
  }

  /** A byte that survives an edit of `[lo, hi)` keeps its backing byte, unless its segment is owned
      frames and it ends up in a slice that starts in another page than the segment did: the middle
      of an mprotect, or what lies above the range. */
  lemma EditBacking(s: Segment, lo: nat, hi: nat, prot: Option<nat>, x: nat)
    requires lo <= hi && s.Contains(x) && EditAt(Some(s), lo, hi, prot, x).Some?
    requires !s.storage.Owned? ==> Backing(s, s.start) + s.len < WORD
    ensures var t := EditAt(Some(s), lo, hi, prot, x).value;
      && t.Contains(x)
      && t.prot == (if lo <= x < hi then prot.value else s.prot)
      && (Backing(t, x) == Backing(s, x) <==>
           (s.storage.Owned? && !Misses(s, lo, hi) ==>
              && (lo <= x < hi ==> SamePage(Max(s.start, lo), s.start))
              && (hi <= x ==> SamePage(hi, s.start))))
  {
    if !Misses(s, lo, hi) {
      var t := EditAt(Some(s), lo, hi, prot, x).value;
      SliceBacking(s, t.start, t.len, t.prot, x);
    }
  }

  /** Removing the first page of a three-page owned segment moves what its second page reads. */
  lemma OwnedSliceMoves()
    ensures exists s: Segment, lo: nat, hi: nat, x: nat ::
      && s.Contains(x) && EditAt(Some(s), lo, hi, None, x).Some?
      && s.start % PAGE == 0 && lo % PAGE == 0 && hi % PAGE == 0
      && Backing(EditAt(Some(s), lo, hi, None, x).value, x) != Backing(s, x)
  {
    var s := Segment(0x5000_0000, 3 * PAGE, 3, Owned(0x8800_0000));
    var lo, hi := s.start, s.start + PAGE;
    EditBacking(s, lo, hi, None, hi);
    assert !SamePage(hi, s.start);
    assert EditAt(Some(s), lo, hi, None, hi).Some?;
  }
}
