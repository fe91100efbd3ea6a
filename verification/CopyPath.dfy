/** The kernel's copy path into user memory: which physical byte stands behind each address, and what
a walk over the segments reads or writes.
 */
module CopyPath {
  import opened Bits
  import opened Wrappers
  import opened Ordered
  import opened Segments

  ghost predicate Mapped(m: Mappings, lo: nat, hi: nat)
  {
    forall x :: lo <= x < hi ==> SegmentAt(m, x).Some?
  }

  /** The physical byte behind a mapped address. */
  ghost function Translate(m: Mappings, x: nat): nat
    requires SegmentAt(m, x).Some?
  {
    Backing(SegmentAt(m, x).value, x)
  }

  /** `find_segment(mappings, addr, 1)` */
  function FindSegment(m: Mappings, keys: seq<int>, addr: nat): (o: Option<int>)
    requires forall i :: 0 <= i < |keys| ==> keys[i] in m
    ensures o.None? && addr + 1 < WORD ==>
      forall i :: 0 <= i < |keys| ==> !(keys[i] <= addr < keys[i] + m[keys[i]].len)
    ensures o.Some? ==> o.value in m && o.value <= addr < o.value + m[o.value].len
  {
    if addr + 1 >= WORD || keys == [] then None
    else if keys[0] <= addr && addr + 1 <= keys[0] + m[keys[0]].len then Some(keys[0])
    else FindSegment(m, keys[1..], addr)
  }

  function Find(m: Mappings, addr: nat): (o: Option<int>)
    ensures o.None? && addr + 1 < WORD ==> forall k :: k in m ==> !(k <= addr < k + m[k].len)
    ensures o.Some? ==> o.value in m && o.value <= addr < o.value + m[o.value].len
  {
    var keys := Sorted(m.Keys);
    SortedKeys(m, keys);
    FindSegment(m, keys, addr)
  }

  lemma SortedKeys(m: Mappings, keys: seq<int>)
    requires keys == Sorted(m.Keys)
    ensures forall i :: 0 <= i < |keys| ==> keys[i] in m
    ensures forall k :: k in m ==> exists i :: 0 <= i < |keys| && keys[i] == k
  {
    hide Sorted;
    forall i | 0 <= i < |keys|
      ensures keys[i] in m
    {
      assert keys[i] in keys;
    }
    forall k | k in m
      ensures exists i :: 0 <= i < |keys| && keys[i] == k
    {
      assert k in keys;
    }
  }

  /** Looking up one byte finds the segment at that address, or that there is none. */
  lemma FindSegmentMeaning(m: Mappings, x: nat)
    requires WellFormed(m)
    ensures var o := Find(m, x);
      && (o.None? <==> SegmentAt(m, x).None?)
      && (o.Some? ==> Holds(m, o.value, x) && SegmentAt(m, x) == Some(m[o.value]))
  {
    hide Find;
    if Find(m, x).Some? {
      SegmentAtIs(m, Find(m, x).value, x);
    }
  }

  /** The run of addresses from `x` towards the end of its segment is mapped, to consecutive bytes. */
  lemma RunOfSegment(m: Mappings, k: int, x: nat, end: nat)
    requires WellFormed(m) && Holds(m, k, x) && end <= m[k].End()
    ensures forall y :: x <= y < end ==> SegmentAt(m, y) == Some(m[k])
    ensures forall y :: x <= y < end ==> Translate(m, y) == Backing(m[k], x) + (y - x)
  {
    forall y | x <= y < end ensures SegmentAt(m, y) == Some(m[k]) {
      SegmentAtIs(m, k, y);
    }
  }

  /** `out` is what memory holds for the addresses from `addr` on. */
  ghost predicate Copied(m: Mappings, phys: nat -> int, addr: nat, out: seq<int>)
  {
    forall y :: addr <= y < addr + |out| ==> SegmentAt(m, y).Some? && out[y - addr] == phys(Translate(m, y))
  }

  lemma CopyStep(m: Mappings, phys: nat -> int, addr: nat, out: seq<int>, k: int, chunk: seq<int>)
    requires var cursor := addr + |out|;
      && WellFormed(m) && Holds(m, k, cursor) && cursor + |chunk| <= m[k].End()
      && forall i :: 0 <= i < |chunk| ==> chunk[i] == phys(Backing(m[k], cursor) + i)
    requires Copied(m, phys, addr, out)
    ensures Copied(m, phys, addr, out + chunk)
  {
    hide Translate, SegmentAt, WellFormed, Backing;
    RunOfSegment(m, k, addr + |out|, addr + |out| + |chunk|);
  }

  /** `len` bytes of memory from `base` on. */
  function Fetch(phys: nat -> int, base: nat, len: nat): (s: seq<int>)
    ensures |s| == len && forall i :: 0 <= i < len ==> s[i] == phys(base + i)
  {
    seq(len, i requires 0 <= i => phys(base + i))
  }

  lemma NotMapped(m: Mappings, lo: nat, hi: nat, x: nat)
    requires lo <= x < hi && SegmentAt(m, x).None?
    ensures !Mapped(m, lo, hi)
  {
  }

  /** The whole range was copied, so the whole range is mapped. */
  lemma CopiedIsMapped(m: Mappings, phys: nat -> int, addr: nat, out: seq<int>)
    requires Copied(m, phys, addr, out)
    ensures Mapped(m, addr, addr + |out|)
  {
    hide SegmentAt, Translate;
  }

  // ----- writing

  /** No two addresses of `[lo, hi)` share a physical byte. */
  ghost predicate Unaliased(m: Mappings, lo: nat, hi: nat)
  {
    forall x, y :: lo <= x < y < hi && SegmentAt(m, x).Some? && SegmentAt(m, y).Some? ==>
      Translate(m, x) != Translate(m, y)
  }

  /** The physical byte `a` stands behind an address of `[lo, hi)`. */
  ghost predicate Behind(m: Mappings, lo: nat, hi: nat, a: nat)
  {
    exists x :: lo <= x < hi && SegmentAt(m, x).Some? && Translate(m, x) == a
  }

  /** Physical bytes behind no address of `[lo, hi)` are as they were. */
  ghost predicate ElsewhereSame(m: Mappings, lo: nat, hi: nat, before: nat -> int, after: nat -> int)
  {
    forall a: nat :: !Behind(m, lo, hi, a) ==> after(a) == before(a)
  }

  function Store(phys: nat -> int, base: nat, chunk: seq<int>): nat -> int
  {
    (a: nat) => if base <= a < base + |chunk| then chunk[a - base] else phys(a)
  }

  /** What byte-by-byte writing of `bytes` from `lo` on leaves at physical byte `a`: the last of them that stands behind
      it, or what was there. */
  ghost function ByteAfter(m: Mappings, before: nat -> int, lo: nat, bytes: seq<int>, a: nat): int
    requires Mapped(m, lo, lo + |bytes|)
  {
    if bytes == [] then before(a)
    else
      var n := |bytes| - 1;
      if Translate(m, lo + n) == a then bytes[n] else ByteAfter(m, before, lo, bytes[..n], a)
  }

  /** Memory is as byte-by-byte writing leaves it. */
  ghost predicate Wrote(m: Mappings, before: nat -> int, after: nat -> int, lo: nat, bytes: seq<int>)
  {
    Mapped(m, lo, lo + |bytes|) && forall a: nat :: after(a) == ByteAfter(m, before, lo, bytes, a)
  }

  lemma NothingWrote(m: Mappings, phys: nat -> int, lo: nat)
    ensures Wrote(m, phys, phys, lo, []) && Copied(m, phys, lo, [])
  {
  }

  /** One chunk into one segment is its bytes one after another. */
  lemma {:induction false} ByteAfterChunk(m: Mappings, before: nat -> int, lo: nat, done: seq<int>, k: int,
                                          chunk: seq<int>, a: nat)
    requires var cursor := lo + |done|;
      WellFormed(m) && Holds(m, k, cursor) && cursor + |chunk| <= m[k].End() && Mapped(m, lo, cursor)
    ensures Mapped(m, lo, lo + |done + chunk|)
    ensures var base := Backing(m[k], lo + |done|);
      ByteAfter(m, before, lo, done + chunk, a) ==
        if base <= a < base + |chunk| then chunk[a - base] else ByteAfter(m, before, lo, done, a)
    decreases |chunk|
  {
    hide Translate, SegmentAt, WellFormed, Backing;
    RunOfSegment(m, k, lo + |done|, lo + |done| + |chunk|);
    if chunk == [] {
      assert done + chunk == done;
    } else {
      var n := |chunk| - 1;
      ByteAfterChunk(m, before, lo, done, k, chunk[..n], a);
      assert (done + chunk)[..|done| + n] == done + chunk[..n];
    }
  }

  lemma WroteChunk(m: Mappings, before: nat -> int, phys: nat -> int, lo: nat, done: seq<int>, k: int, chunk: seq<int>)
    requires var cursor := lo + |done|;
      WellFormed(m) && Holds(m, k, cursor) && cursor + |chunk| <= m[k].End()
    requires Wrote(m, before, phys, lo, done)
    ensures Wrote(m, before, Store(phys, Backing(m[k], lo + |done|), chunk), lo, done + chunk)
  {
    hide Translate, SegmentAt, WellFormed, Backing, ByteAfter, Mapped;
    ByteAfterChunk(m, before, lo, done, k, chunk, 0);
    forall a: nat
      ensures Store(phys, Backing(m[k], lo + |done|), chunk)(a) == ByteAfter(m, before, lo, done + chunk, a)
    {
      ByteAfterChunk(m, before, lo, done, k, chunk, a);
    }
  }

  /** Where no two addresses share a byte, what was written reads back. */
  lemma {:induction false} ByteAfterReads(m: Mappings, before: nat -> int, lo: nat, bytes: seq<int>, y: nat)
    requires Mapped(m, lo, lo + |bytes|) && Unaliased(m, lo, lo + |bytes|) && lo <= y < lo + |bytes|
    ensures ByteAfter(m, before, lo, bytes, Translate(m, y)) == bytes[y - lo]
    decreases |bytes|
  {
    hide Translate, SegmentAt;
    var n := |bytes| - 1;
    if y < lo + n {
      ByteAfterReads(m, before, lo, bytes[..n], y);
    }
  }

  lemma {:induction false} ByteAfterElsewhere(m: Mappings, before: nat -> int, lo: nat, hi: nat, bytes: seq<int>,
                                              a: nat)
    requires Mapped(m, lo, lo + |bytes|) && lo + |bytes| <= hi && !Behind(m, lo, hi, a)
    ensures ByteAfter(m, before, lo, bytes, a) == before(a)
    decreases |bytes|
  {
    hide Translate, SegmentAt;
    if bytes != [] {
      assert SegmentAt(m, lo + |bytes| - 1).Some?;
      ByteAfterElsewhere(m, before, lo, hi, bytes[..|bytes| - 1], a);
    }
  }

  /** What a write means for what can be read: the bytes read back unless they share storage, and nothing else
      changes. */
  lemma WroteMeans(m: Mappings, before: nat -> int, after: nat -> int, lo: nat, hi: nat, bytes: seq<int>)
    requires Wrote(m, before, after, lo, bytes) && lo + |bytes| <= hi
    ensures Unaliased(m, lo, lo + |bytes|) ==> Copied(m, after, lo, bytes)
    ensures ElsewhereSame(m, lo, hi, before, after)
  {
    hide Translate, SegmentAt, Unaliased, Behind, ByteAfter;
    if Unaliased(m, lo, lo + |bytes|) {
      forall y | lo <= y < lo + |bytes|
        ensures bytes[y - lo] == after(Translate(m, y))
      {
        ByteAfterReads(m, before, lo, bytes, y);
      }
    }
    forall a: nat | !Behind(m, lo, hi, a)
      ensures after(a) == before(a)
    {
      ByteAfterElsewhere(m, before, lo, hi, bytes, a);
    }
  }

  /** The part of the segment below `hi` lies in its host range. */
  predicate HostRoom(s: Segment, hi: nat)
  {
    s.storage.Host? ==> Min(hi, s.End()) <= s.start + s.storage.hostLen
  }

  ghost predicate StorableAt(m: Mappings, x: int, hi: nat)
  {
    SegmentAt(m, x).Some? && HostRoom(SegmentAt(m, x).value, hi)
  }

  /** Every address of `[lo, hi)` is mapped, and no host range ends before what is to be written of its segment. */
  ghost predicate Storable(m: Mappings, lo: nat, hi: nat) { StorableUpTo(m, lo, hi, hi) }

  /** Where host segments are backed for their whole length, what is mapped can be written. */
  lemma StorableIffMapped(m: Mappings, lo: nat, hi: nat)
    requires WellFormed(m) && HostsWhole(m)
    ensures Storable(m, lo, hi) <==> Mapped(m, lo, hi)
  {
    forall x: int
      ensures StorableAt(m, x, hi) <==> SegmentAt(m, x).Some?
    {
      if SegmentAt(m, x).Some? {
        SegmentAtHolds(m, x);
      }
    }
  }

  ghost predicate StorableUpTo(m: Mappings, lo: nat, end: nat, hi: nat)
  {
    forall x :: lo <= x < end ==> StorableAt(m, x, hi)
  }

  /** The write stopped before byte `n`, the first that cannot be stored, with the bytes before it written. */
  ghost predicate StoppedAt(m: Mappings, before: nat -> int, after: nat -> int, lo: nat, bytes: seq<int>, n: nat)
  {
    && n < |bytes| && !StorableAt(m, lo + n, lo + |bytes|) && StorableUpTo(m, lo, lo + n, lo + |bytes|)
    && Wrote(m, before, after, lo, bytes[..n])
  }
}
