/** Who shares frames: when no byte of an owned segment stands behind two addresses, which mappings keep that, and
exactly when an unmap, an mprotect or an insertion breaks it.
 */
module SegmentFrames {
  import opened Bits
  import opened Wrappers
  import opened Segments
  import opened SegmentGaps
  import opened CopyPath

  /** The physical range a segment may reach, from the start of its first frame. */
  function FrameLo(s: Segment): nat
  {
    match s.storage
    case Owned(base) => base
    case Shared(ptr) => ptr
    case Host(ptr, _) => ptr
  }

  function FrameHi(s: Segment): nat
  {
    FrameLo(s) + (if s.storage.Owned? then PageOffset(s.start) else 0) + s.len
  }

  predicate Clear(s: Segment, lo: nat, hi: nat) { FrameHi(s) <= lo || hi <= FrameLo(s) }

  predicate Apart(s: Segment, t: Segment) { Clear(s, FrameLo(t), FrameHi(t)) }

  /** No owned segment reaches into the frames of another segment. */
  ghost predicate Exclusive(m: Mappings)
  {
    forall j, k :: j in m && k in m && j != k && m[j].storage.Owned? ==> Apart(m[j], m[k])
  }

  /** The frames in `[lo, hi)` are nobody's. */
  ghost predicate FramesFree(m: Mappings, lo: nat, hi: nat)
  {
    forall k :: k in m ==> Clear(m[k], lo, hi)
  }

  /** Kernel buffers end below the top of the address space. */
  ghost predicate Addressable(m: Mappings)
  {
    forall k :: k in m && !m[k].storage.Owned? ==> FrameHi(m[k]) < WORD
  }

  /** What an address space with its own frames keeps: exclusive segments, and untouched free frames. */
  ghost predicate Private(m: Mappings, next: nat, end: nat)
  {
    Exclusive(m) && FramesFree(m, next, end) && Addressable(m)
  }

  // ----- in terms of addresses

  ghost predicate OwnedAt(m: Mappings, x: int)
  {
    SegmentAt(m, x).Some? && SegmentAt(m, x).value.storage.Owned?
  }

  /** No byte behind an owned address stands behind another address. */
  ghost predicate NoSharing(m: Mappings)
  {
    forall x: nat, y: nat :: x != y && OwnedAt(m, x) && SegmentAt(m, y).Some? ==> Translate(m, x) != Translate(m, y)
  }

  lemma BackingInFrames(s: Segment, x: nat)
    requires s.Contains(x)
    ensures FrameLo(s) <= Backing(s, x) < FrameHi(s)
  {
    hide PageOffset;
  }

  lemma BackingInjective(s: Segment, x: nat, y: nat)
    requires s.Contains(x) && s.Contains(y) && x != y
    ensures Backing(s, x) != Backing(s, y)
  {
    hide PageOffset;
  }

  lemma ExclusiveMeansNoSharing(m: Mappings)
    requires WellFormed(m) && Exclusive(m)
    ensures NoSharing(m)
  {
    hide SegmentAt, Backing, FrameLo, FrameHi;
    forall x: nat, y: nat | x != y && OwnedAt(m, x) && SegmentAt(m, y).Some?
      ensures Translate(m, x) != Translate(m, y)
    {
      var s, t := SegmentAt(m, x).value, SegmentAt(m, y).value;
      SegmentAtHolds(m, x);
      SegmentAtHolds(m, y);
      BackingInFrames(s, x);
      BackingInFrames(t, y);
      if s == t {
        BackingInjective(s, x, y);
      }
    }
  }

  /** Owned segments start on a page. */
  ghost predicate OwnedAligned(m: Mappings)
  {
    forall k :: k in m && m[k].storage.Owned? ==> k % PAGE == 0
  }

  lemma AlignedFrames(s: Segment)
    requires s.storage.Owned? ==> s.start % PAGE == 0
    ensures FrameHi(s) == FrameLo(s) + s.len
    ensures forall x: nat :: s.Contains(x) ==> Backing(s, x) == FrameLo(s) + (x - s.start)
  {
    PageOffsetIsMod(s.start);
  }

  /** For page-aligned owned segments, sharing no byte and being exclusive is the same thing. */
  lemma NoSharingIffExclusive(m: Mappings)
    requires WellFormed(m) && OwnedAligned(m)
    ensures NoSharing(m) <==> Exclusive(m)
  {
    hide SegmentAt, Backing, FrameLo, FrameHi;
    if Exclusive(m) {
      ExclusiveMeansNoSharing(m);
    } else {
      var j, k :| j in m && k in m && j != k && m[j].storage.Owned? && !Apart(m[j], m[k]);
      var s, t := m[j], m[k];
      AlignedFrames(s);
      AlignedFrames(t);
      var a := Max(FrameLo(s), FrameLo(t));
      var x, y := s.start + (a - FrameLo(s)), t.start + (a - FrameLo(t));
      SegmentAtIs(m, j, x);
      SegmentAtIs(m, k, y);
      assert x != y;
      assert Translate(m, x) == a && Translate(m, y) == a;
    }
  }

  /** So what the kernel writes to a range of owned memory reads back. */
  lemma ExclusiveUnaliased(m: Mappings, lo: nat, hi: nat)
    requires WellFormed(m) && Exclusive(m)
    requires forall x: nat :: lo <= x < hi && SegmentAt(m, x).Some? ==> OwnedAt(m, x)
    ensures Unaliased(m, lo, hi)
  {
    hide SegmentAt, Backing;
    ExclusiveMeansNoSharing(m);
  }

  // ----- edits

  /** An edit of `[lo, hi)` leaves more than one piece of the segment: an unmap when it sticks out on both sides, an
      mprotect when it sticks out on either. */
  predicate Split(s: Segment, lo: nat, hi: nat, prot: Option<nat>)
  {
    && !Misses(s, lo, hi)
    && (if prot.None? then s.start < lo && hi < s.End() else s.start < lo || hi < s.End())
  }

  ghost predicate NoOwnedSplit(m: Mappings, lo: nat, hi: nat, prot: Option<nat>)
  {
    forall k :: k in m && m[k].storage.Owned? ==> !Split(m[k], lo, hi, prot)
  }

  lemma OffsetGrows(a: nat, b: nat)
    requires a <= b
    ensures PageOffset(b) <= PageOffset(a) + (b - a)
  {
    PageOffsetIsMod(a);
    PageOffsetIsMod(b);
  }

  /** A slice stays within the frames of what it was cut from. */
  lemma SliceFrames(s: Segment, start: nat, len: nat, prot: nat)
    requires s.start <= start && start + len <= s.End()
    requires !s.storage.Owned? ==> FrameHi(s) < WORD
    ensures var t := Slice(s, start, len, prot);
      && (t.storage.Owned? <==> s.storage.Owned?)
      && FrameLo(s) <= FrameLo(t) && FrameHi(t) <= FrameHi(s)
      && (s.storage.Owned? ==> FrameLo(t) == FrameLo(s))
  {
    hide PageOffset;
    OffsetGrows(s.start, start);
  }

  /** The segment at `x` after an edit, and the one it came from. */
  ghost predicate CutFrom(t: Segment, s: Segment, lo: nat, hi: nat, prot: Option<nat>, x: nat)
  {
    s.Contains(x) && EditAt(Some(s), lo, hi, prot, x) == Some(t)
  }

  lemma CutFrames(t: Segment, s: Segment, lo: nat, hi: nat, prot: Option<nat>, x: nat)
    requires lo <= hi && CutFrom(t, s, lo, hi, prot, x)
    requires !s.storage.Owned? ==> FrameHi(s) < WORD
    ensures t.Contains(x) && (t.storage.Owned? <==> s.storage.Owned?)
    ensures FrameLo(s) <= FrameLo(t) && FrameHi(t) <= FrameHi(s)
    ensures s.storage.Owned? ==> FrameLo(t) == FrameLo(s)
  {
    hide FrameLo, FrameHi;
    if !Misses(s, lo, hi) {
      SliceFrames(s, t.start, t.len, t.prot);
    }
  }

  /** Two segments cut from one have it split. */
  lemma TwoPiecesSplit(s: Segment, lo: nat, hi: nat, prot: Option<nat>, x: nat, y: nat, t: Segment, u: Segment)
    requires lo <= hi && CutFrom(t, s, lo, hi, prot, x) && CutFrom(u, s, lo, hi, prot, y)
    requires t.start == x && u.start == y && x != y
    ensures Split(s, lo, hi, prot)
  {
    hide SliceStorage;
  }

  /** Each segment after an edit was cut from one before it. */
  lemma Origin(m: Mappings, m': Mappings, lo: nat, hi: nat, prot: Option<nat>, k: int) returns (s: Segment)
    requires WellFormed(m) && WellFormed(m') && lo <= hi && k in m'
    requires SegmentAt(m', k) == EditAt(SegmentAt(m, k), lo, hi, prot, k)
    ensures k >= 0 && s.start in m && m[s.start] == s && CutFrom(m'[k], s, lo, hi, prot, k) && m'[k].start == k
  {
    hide EditAt;
    SegmentAtIs(m', k, k);
    EditNone(lo, hi, prot, k);
    s := SegmentAt(m, k).value;
    SegmentAtHolds(m, k);
  }

  /** A cut leaves every host segment backed for exactly its own length. */
  lemma EditKeepsHosts(m: Mappings, m': Mappings, lo: nat, hi: nat, prot: Option<nat>)
    requires WellFormed(m) && WellFormed(m') && lo <= hi && Edited(m, m', lo, hi, prot) && HostsWhole(m)
    ensures HostsWhole(m')
  {
    hide SegmentAt, WellFormed;
    forall k | k in m'
      ensures HostWhole(m'[k])
    {
      var s := Origin(m, m', lo, hi, prot, k);
    }
  }

  lemma EditNone(lo: nat, hi: nat, prot: Option<nat>, x: int)
    ensures EditAt(None, lo, hi, prot, x) == None
  {
  }

  ghost predicate EditedAt(m: Mappings, m': Mappings, lo: nat, hi: nat, prot: Option<nat>, x: int)
  {
    SegmentAt(m', x) == EditAt(SegmentAt(m, x), lo, hi, prot, x)
  }

  /** Where the second piece of a split segment starts. */
  function SecondPiece(s: Segment, lo: nat, hi: nat, prot: Option<nat>): nat
  {
    if prot.Some? && s.start < lo then lo else hi
  }

  /** A split leaves two segments on the same first frame. */
  lemma SplitShares(m: Mappings, m': Mappings, lo: nat, hi: nat, prot: Option<nat>, k: int)
    requires WellFormed(m) && WellFormed(m') && lo < hi
    requires k in m && m[k].storage.Owned? && Split(m[k], lo, hi, prot)
    requires EditedAt(m, m', lo, hi, prot, k) && EditedAt(m, m', lo, hi, prot, SecondPiece(m[k], lo, hi, prot))
    ensures !Exclusive(m')
  {
    var s := m[k];
    var t := PieceAt(m, m', lo, hi, prot, k, s.start);
    var u := PieceAt(m, m', lo, hi, prot, k, SecondPiece(s, lo, hi, prot));
    hide FrameHi;
    SamePiece(t, u);
  }

  lemma PieceAt(m: Mappings, m': Mappings, lo: nat, hi: nat, prot: Option<nat>, k: int, x: nat) returns (t: Segment)
    requires WellFormed(m) && WellFormed(m') && lo < hi && EditedAt(m, m', lo, hi, prot, x)
    requires k in m && m[k].storage.Owned? && Split(m[k], lo, hi, prot)
    requires x == m[k].start || x == SecondPiece(m[k], lo, hi, prot)
    ensures x in m' && m'[x] == t && t.storage == m[k].storage && t.start == x && t.len > 0
  {
    SegmentAtIs(m, k, x);
    t := SegmentAt(m', x).value;
    SegmentAtHolds(m', x);
  }

  lemma SamePiece(t: Segment, u: Segment)
    requires t.storage.Owned? && u.storage == t.storage && t.len > 0 && u.len > 0
    ensures !Apart(t, u)
  {
    hide PageOffset;
  }

  /** An unmap or mprotect keeps the segments exclusive exactly when it splits no owned segment. */
  lemma EditExclusiveIff(m: Mappings, m': Mappings, lo: nat, hi: nat, prot: Option<nat>)
    requires WellFormed(m) && WellFormed(m') && lo < hi && Edited(m, m', lo, hi, prot)
    requires Exclusive(m) && Addressable(m)
    ensures Exclusive(m') <==> NoOwnedSplit(m, lo, hi, prot)
  {
    hide SegmentAt, EditAt, Split, FrameLo, FrameHi, WellFormed, CutFrom;
    if NoOwnedSplit(m, lo, hi, prot) {
      forall j, k | j in m' && k in m' && j != k && m'[j].storage.Owned?
        ensures Apart(m'[j], m'[k])
      {
        var s := Origin(m, m', lo, hi, prot, j);
        var t := Origin(m, m', lo, hi, prot, k);
        CutsApart(m, lo, hi, prot, s, t, j, k, m'[j], m'[k]);
      }
    } else {
      var k :| k in m && m[k].storage.Owned? && Split(m[k], lo, hi, prot);
      assert EditedAt(m, m', lo, hi, prot, k) && EditedAt(m, m', lo, hi, prot, SecondPiece(m[k], lo, hi, prot));
      SplitShares(m, m', lo, hi, prot, k);
    }
  }

  lemma CutsApart(m: Mappings, lo: nat, hi: nat, prot: Option<nat>, s: Segment, t: Segment, j: nat, k: nat,
                  sj: Segment, tk: Segment)
    requires lo < hi && Exclusive(m) && Addressable(m) && NoOwnedSplit(m, lo, hi, prot)
    requires s.start in m && m[s.start] == s && t.start in m && m[t.start] == t
    requires CutFrom(sj, s, lo, hi, prot, j) && CutFrom(tk, t, lo, hi, prot, k)
    requires sj.start == j && tk.start == k && j != k && sj.storage.Owned?
    ensures Apart(sj, tk)
  {
    hide EditAt, Split, FrameLo, FrameHi, CutFrom;
    CutFrames(sj, s, lo, hi, prot, j);
    CutFrames(tk, t, lo, hi, prot, k);
    if s.start == t.start {
      TwoPiecesSplit(s, lo, hi, prot, j, k, sj, tk);
    }
  }

  /** In a space of page-aligned segments: an unmap or mprotect keeps every owned byte behind one address exactly when
      it splits no owned segment. */
  lemma EditSharesIff(m: Mappings, m': Mappings, lo: nat, hi: nat, prot: Option<nat>)
    requires WellFormed(m) && WellFormed(m') && lo < hi && Edited(m, m', lo, hi, prot)
    requires lo % PAGE == 0 && hi % PAGE == 0 && OwnedAligned(m) && Addressable(m) && NoSharing(m)
    ensures NoSharing(m') <==> NoOwnedSplit(m, lo, hi, prot)
  {
    hide SegmentAt, EditAt, NoSharing, Exclusive, WellFormed;
    NoSharingIffExclusive(m);
    EditExclusiveIff(m, m', lo, hi, prot);
    forall k | k in m' && m'[k].storage.Owned?
      ensures k % PAGE == 0
    {
      var s := Origin(m, m', lo, hi, prot, k);
      CutStarts(m'[k], s, lo, hi, prot, k);
    }
    NoSharingIffExclusive(m');
  }

  lemma CutStarts(t: Segment, s: Segment, lo: nat, hi: nat, prot: Option<nat>, x: nat)
    requires lo <= hi && CutFrom(t, s, lo, hi, prot, x)
    ensures t.start == s.start || t.start == lo || t.start == hi
    ensures t.storage.Owned? ==> s.storage.Owned?
  {
  }

  /** Three pages of owned memory. */
  function ThreePages(): Segment { Segment(0x5000_0000, 3 * PAGE, 3, Owned(0x8800_0000)) }

  lemma OneSegment(m: Mappings, s: Segment, x: int)
    requires m == map[s.start := s] && 0 < s.len && s.End() < WORD
    ensures WellFormed(m) && SegmentAt(m, x) == if s.Contains(x) then Some(s) else None
  {
    if s.Contains(x) {
      SegmentAtIs(m, s.start, x);
    }
  }

  lemma TwoSegments(m: Mappings, s: Segment, t: Segment, x: int)
    requires 0 < s.len && 0 < t.len && s.End() <= t.start && t.End() < WORD
    requires m == map[s.start := s, t.start := t]
    ensures WellFormed(m)
    ensures SegmentAt(m, x) == if s.Contains(x) then Some(s) else if t.Contains(x) then Some(t) else None
  {
    hide SegmentAt;
    assert m[s.start] == s && m[t.start] == t && forall k :: k in m ==> k == s.start || k == t.start;
    if s.Contains(x) {
      SegmentAtIs(m, s.start, x);
    } else if t.Contains(x) {
      SegmentAtIs(m, t.start, x);
    } else if SegmentAt(m, x).Some? {
      SegmentAtHolds(m, x);
      assert false;
    }
  }

  lemma MiddleCut(m: Mappings, m': Mappings, x: int)
    requires var s := ThreePages(); var hi := s.start + 2 * PAGE;
      m == map[s.start := s] && m' == map[s.start := Slice(s, s.start, PAGE, 3), hi := Slice(s, hi, PAGE, 3)]
    ensures WellFormed(m) && WellFormed(m')
    ensures EditedAt(m, m', ThreePages().start + PAGE, ThreePages().start + 2 * PAGE, None, x)
  {
    hide SegmentAt, WellFormed;
    var s := ThreePages();
    var hi := s.start + 2 * PAGE;
    OneSegment(m, s, x);
    TwoSegments(m', Slice(s, s.start, PAGE, 3), Slice(s, hi, PAGE, 3), x);
  }

  /** Unmapping the middle page of a three-page owned segment leaves its first and third page on one frame. */
  lemma UnmapMiddleShares()
    ensures exists m: Mappings, m': Mappings, lo: nat, hi: nat ::
      && WellFormed(m) && WellFormed(m') && Edited(m, m', lo, hi, None) && NoSharing(m) && !NoSharing(m')
  {
    hide SegmentAt, EditAt, NoSharing, WellFormed, Slice;
    var s := ThreePages();
    var lo, hi := s.start + PAGE, s.start + 2 * PAGE;
    var m: Mappings := map[s.start := s];
    var m': Mappings := map[s.start := Slice(s, s.start, PAGE, 3), hi := Slice(s, hi, PAGE, 3)];
    forall x
      ensures SegmentAt(m', x) == EditAt(SegmentAt(m, x), lo, hi, None, x)
    {
      MiddleCut(m, m', x);
    }
    MiddleCut(m, m', 0);
    assert Exclusive(m) && Addressable(m) && OwnedAligned(m);
    NoSharingIffExclusive(m);
    assert Split(m[s.start], lo, hi, None);
    EditSharesIff(m, m', lo, hi, None);
  }

  // ----- the free frames

  lemma ClearWithin(s: Segment, t: Segment, lo: nat, hi: nat)
    requires FrameLo(s) <= FrameLo(t) && FrameHi(t) <= FrameHi(s) && Clear(s, lo, hi)
    ensures Clear(t, lo, hi)
  {
  }

  /** Edits reach into no free frame. */
  lemma EditKeepsFrames(m: Mappings, m': Mappings, lo: nat, hi: nat, prot: Option<nat>, first: nat, last: nat)
    requires WellFormed(m) && WellFormed(m') && lo <= hi && Edited(m, m', lo, hi, prot)
    requires FramesFree(m, first, last) && Addressable(m)
    ensures FramesFree(m', first, last) && Addressable(m')
  {
    hide SegmentAt, EditAt, FrameLo, FrameHi, WellFormed, CutFrom;
    forall k | k in m'
      ensures Clear(m'[k], first, last) && (!m'[k].storage.Owned? ==> FrameHi(m'[k]) < WORD)
    {
      var s := Origin(m, m', lo, hi, prot, k);
      CutFrames(m'[k], s, lo, hi, prot, k);
      ClearWithin(s, m'[k], first, last);
    }
  }

  /** After an insertion, a segment is the new one or was cut from an old one outside it. */
  lemma InsertOrigin(m: Mappings, m': Mappings, s: Segment, k: int) returns (t: Segment)
    requires WellFormed(m) && WellFormed(m') && Inserted(m, m', s) && k in m' && k != s.start
    ensures k >= 0 && t.start in m && m[t.start] == t && m'[k].start == k
    ensures CutFrom(m'[k], t, s.start, s.End(), None, k)
  {
    hide EditAt;
    SegmentAtIs(m', k, k);
    assert !s.Contains(k);
    t := Origin(m, m', s.start, s.End(), None, k);
  }

  lemma InsertFirst(m: Mappings, m': Mappings, s: Segment)
    requires WellFormed(m') && Inserted(m, m', s) && s.len > 0
    ensures s.start in m' && m'[s.start] == s
  {
    assert SegmentAt(m', s.start) == Some(s);
    SegmentAtHolds(m', s.start);
  }

  /** Inserting a segment over fresh frames keeps the segments exclusive exactly when the eviction splits no owned
      segment. */
  lemma InsertExclusiveIff(m: Mappings, m': Mappings, s: Segment)
    requires WellFormed(m) && WellFormed(m') && Inserted(m, m', s) && s.len > 0 && s.storage.Owned?
    requires Exclusive(m) && Addressable(m) && FramesFree(m, FrameLo(s), FrameHi(s))
    ensures Exclusive(m') <==> NoOwnedSplit(m, s.start, s.End(), None)
  {
    hide SegmentAt, EditAt, Split, FrameLo, FrameHi, WellFormed, CutFrom;
    InsertFirst(m, m', s);
    if NoOwnedSplit(m, s.start, s.End(), None) {
      forall j, k | j in m' && k in m' && j != k && m'[j].storage.Owned?
        ensures Apart(m'[j], m'[k])
      {
        if j == s.start {
          var t := InsertOrigin(m, m', s, k);
          InsertedApart(m, s, t, k, m'[k]);
        } else if k == s.start {
          var t := InsertOrigin(m, m', s, j);
          InsertedApart(m, s, t, j, m'[j]);
        } else {
          var t := InsertOrigin(m, m', s, j);
          var u := InsertOrigin(m, m', s, k);
          CutsApart(m, s.start, s.End(), None, t, u, j, k, m'[j], m'[k]);
        }
      }
    } else {
      var k :| k in m && m[k].storage.Owned? && Split(m[k], s.start, s.End(), None);
      SplitOutside(m, s, k);
      assert EditedAt(m, m', s.start, s.End(), None, k) && EditedAt(m, m', s.start, s.End(), None, s.End());
      SplitShares(m, m', s.start, s.End(), None, k);
    }
  }

  lemma SplitOutside(m: Mappings, s: Segment, k: int)
    requires WellFormed(m) && k in m && Split(m[k], s.start, s.End(), None)
    ensures !s.Contains(k) && !s.Contains(s.End()) && SecondPiece(m[k], s.start, s.End(), None) == s.End()
  {
  }

  lemma InsertedApart(m: Mappings, s: Segment, t: Segment, k: nat, tk: Segment)
    requires s.len > 0 && Addressable(m) && FramesFree(m, FrameLo(s), FrameHi(s))
    requires t.start in m && m[t.start] == t && CutFrom(tk, t, s.start, s.End(), None, k)
    ensures Apart(s, tk) && Apart(tk, s)
  {
    hide EditAt, FrameLo, FrameHi, CutFrom;
    CutFrames(tk, t, s.start, s.End(), None, k);
    ClearWithin(t, tk, FrameLo(s), FrameHi(s));
  }

  lemma InsertKeepsFrames(m: Mappings, m': Mappings, s: Segment, first: nat, last: nat)
    requires WellFormed(m) && WellFormed(m') && Inserted(m, m', s) && s.len > 0 && s.storage.Owned?
    requires FramesFree(m, first, last) && Addressable(m) && Clear(s, first, last)
    ensures FramesFree(m', first, last) && Addressable(m')
  {
    hide SegmentAt, EditAt, FrameLo, FrameHi, WellFormed, CutFrom, Clear;
    InsertFirst(m, m', s);
    forall k | k in m' && k != s.start
      ensures Clear(m'[k], first, last) && (!m'[k].storage.Owned? ==> FrameHi(m'[k]) < WORD)
    {
      var t := InsertOrigin(m, m', s, k);
      CutFrames(m'[k], t, s.start, s.End(), None, k);
      ClearWithin(t, m'[k], first, last);
    }
  }

  lemma FramesFreeWithin(m: Mappings, lo: nat, hi: nat, first: nat, last: nat)
    requires FramesFree(m, lo, hi) && lo <= first && last <= hi
    ensures FramesFree(m, first, last)
  {
  }

  /** Nothing in a gap is split. */
  lemma GapSplitsNothing(m: Mappings, lo: nat, hi: nat)
    requires WellFormed(m) && Vacant(m, lo, hi)
    ensures NoOwnedSplit(m, lo, hi, None)
  {
  }

  /** An edit keeps a space private exactly when it splits no owned segment. */
  lemma EditPrivateIff(m: Mappings, m': Mappings, lo: nat, hi: nat, prot: Option<nat>, first: nat, last: nat)
    requires WellFormed(m) && WellFormed(m') && lo < hi && Edited(m, m', lo, hi, prot)
    ensures Private(m, first, last) ==> (Private(m', first, last) <==> NoOwnedSplit(m, lo, hi, prot))
  {
    hide Exclusive, FramesFree, Addressable, NoOwnedSplit, Edited, WellFormed;
    if Private(m, first, last) {
      EditExclusiveIff(m, m', lo, hi, prot);
      EditKeepsFrames(m, m', lo, hi, prot, first, last);
    }
  }

  /** The same for a segment inserted over the first of the free frames. */
  lemma InsertPrivateIff(m: Mappings, m': Mappings, s: Segment, first: nat, next: nat, last: nat)
    requires WellFormed(m) && WellFormed(m') && Inserted(m, m', s) && s.len > 0 && s.storage.Owned?
    requires FrameLo(s) == first <= next <= last && FrameHi(s) <= next
    ensures Private(m, first, last) ==> (Private(m', next, last) <==> NoOwnedSplit(m, s.start, s.End(), None))
  {
    hide Exclusive, FramesFree, Addressable, NoOwnedSplit, Inserted, WellFormed, FrameLo, FrameHi;
    if Private(m, first, last) {
      FramesFreeWithin(m, first, last, FrameLo(s), FrameHi(s));
      FramesFreeWithin(m, first, last, next, last);
      InsertExclusiveIff(m, m', s);
      InsertKeepsFrames(m, m', s, next, last);
    }
  }
}
