/** Inserting segments, and the search for a gap to insert them in.
 */
module SegmentGaps {
  import opened Bits
  import opened Wrappers
  import opened Ordered
  import opened Segments
  import opened SegmentCuts

  // ----- insertion

  /** `m'` is `m` with the addresses of `s` handed over to `s`. */
  ghost predicate Inserted(m: Mappings, m': Mappings, s: Segment)
  {
    forall x :: SegmentAt(m', x) ==
      if s.Contains(x) then Some(s) else EditAt(SegmentAt(m, x), s.start, s.End(), None, x)
  }

  /** `m'` is `m` with `s` added and nothing taken away. */
  ghost predicate Added(m: Mappings, m': Mappings, s: Segment)
  {
    forall x :: SegmentAt(m', x) == if s.Contains(x) then Some(s) else SegmentAt(m, x)
  }

  lemma UnmapOfVacant(m: Mappings, lo: nat, hi: nat)
    requires WellFormed(m) && Vacant(m, lo, hi)
    ensures Edited(m, m, lo, hi, None)
  {
    forall x ensures SegmentAt(m, x) == EditAt(SegmentAt(m, x), lo, hi, None, x) {
      if SegmentAt(m, x).Some? {
        SegmentAtHolds(m, x);
      }
    }
  }

  lemma VacantAfterUnmap(m: Mappings, m': Mappings, lo: nat, hi: nat)
    requires WellFormed(m) && WellFormed(m') && Edited(m, m', lo, hi, None) && lo < hi
    ensures Vacant(m', lo, hi)
  {
    hide SegmentAt;
    forall k | k in m' ensures m'[k].End() <= lo || hi <= k {
      if !(m'[k].End() <= lo || hi <= k) {
        var x := Max(k, lo);
        OwnerIs(m', k, x);
        assert SegmentAt(m', x) == EditAt(SegmentAt(m, x), lo, hi, None, x);
        UnmapInside(m, lo, hi, x);
      }
    }
  }

  lemma UnmapInside(m: Mappings, lo: nat, hi: nat, x: int)
    requires lo <= x < hi
    ensures EditAt(SegmentAt(m, x), lo, hi, None, x).None?
  {
  }

  lemma InsertAfterUnmap(m: Mappings, m': Mappings, s: Segment)
    requires WellFormed(m) && WellFormed(m') && Edited(m, m', s.start, s.End(), None)
    requires 0 < s.len && s.End() < WORD
    ensures WellFormed(m'[s.start := s]) && Inserted(m, m'[s.start := s], s)
  {
    hide SegmentAt, WellFormed, EditAt, Vacant;
    VacantAfterUnmap(m, m', s.start, s.End());
    InsertAt(m', s);
  }

  /** Inserting where nothing is mapped evicts nothing. */
  lemma InsertedIntoGap(m: Mappings, m': Mappings, s: Segment)
    requires WellFormed(m) && Inserted(m, m', s) && Vacant(m, s.start, s.End())
    ensures Added(m, m', s)
  {
    hide SegmentAt, WellFormed, EditAt, Vacant;
    UnmapOfVacant(m, s.start, s.End());
  }

  /** Saturating the end of the range cannot hide an overlap. */
  lemma OverlapSaturates(m: Mappings, lo: nat, hi: nat)
    requires WellFormed(m)
    ensures Vacant(m, lo, hi) <==> Vacant(m, lo, Min(hi, WORD - 1))
  {
  }

  // ----- gaps

  /** Rounding the end of any segment up to a page does not overflow. */
  predicate Headroom(m: Mappings)
  {
    forall k :: k in m ==> m[k].End() + PAGE <= WORD
  }

  /** `first_overlap_end`: the end of the first segment in key order that meets `[start, end)`. */
  function FirstOverlapEnd(m: Mappings, keys: seq<int>, start: nat, end: nat): (o: Option<nat>)
    requires forall i :: 0 <= i < |keys| ==> keys[i] in m
    ensures o.None? ==> forall i :: 0 <= i < |keys| ==> Misses(m[keys[i]], start, end)
    ensures o.Some? ==> exists i :: FirstHit(m, keys, i, start, end) && o.value == m[keys[i]].End()
  {
    if keys == [] then None
    else if !Misses(m[keys[0]], start, end) then
      assert FirstHit(m, keys, 0, start, end);
      Some(m[keys[0]].End())
    else
      var o := FirstOverlapEnd(m, keys[1..], start, end);
      assert o.Some? ==> exists i :: FirstHit(m, keys, i, start, end) && o.value == m[keys[i]].End() by {
        if o.Some? {
          var i :| FirstHit(m, keys[1..], i, start, end) && o.value == m[keys[1..][i]].End();
          assert FirstHit(m, keys, i + 1, start, end);
        }
      }
      o
  }

  /** The segment keyed `keys[i]` is the first of them to meet `[start, end)`. */
  predicate FirstHit(m: Mappings, keys: seq<int>, i: int, start: nat, end: nat)
    requires forall j :: 0 <= j < |keys| ==> keys[j] in m
  {
    && 0 <= i < |keys| && !Misses(m[keys[i]], start, end)
    && forall j :: 0 <= j < i ==> Misses(m[keys[j]], start, end)
  }

  function EndingAbove(m: Mappings, x: nat): set<int>
  {
    set k | k in m && m[k].End() > x
  }

  /** No page-aligned address from `base` up to `start` has `len` free bytes. */
  ghost predicate AllTaken(m: Mappings, base: nat, start: nat, len: nat)
  {
    forall s: nat :: base <= s < start && s % PAGE == 0 ==> !Vacant(m, s, s + len)
  }

  ghost predicate LowestGap(m: Mappings, base: nat, len: nat, start: nat)
  {
    && base <= start && start % PAGE == 0 && start + len < WORD
    && Vacant(m, start, start + len)
    && AllTaken(m, base, start, len)
  }

  lemma OverlapMeaning(m: Mappings, start: nat, len: nat)
    requires WellFormed(m)
    ensures var o := FirstOverlapEnd(m, Sorted(m.Keys), start, SaturatingAdd(start, len));
      && (o.None? ==> Vacant(m, start, start + len))
      && (o.Some? ==> exists k :: k in m && !Misses(m[k], start, start + len) && o.value == m[k].End())
  {
    hide Sorted;
    var keys := Sorted(m.Keys);
    var o := FirstOverlapEnd(m, keys, start, SaturatingAdd(start, len));
    if o.None? {
      OverlapSaturates(m, start, start + len);
      forall k | k in m ensures Misses(m[k], start, SaturatingAdd(start, len)) {
        var i :| 0 <= i < |keys| && keys[i] == k;
      }
      assert Vacant(m, start, SaturatingAdd(start, len));
    } else {
      var i :| FirstHit(m, keys, i, start, SaturatingAdd(start, len)) && o.value == m[keys[i]].End();
      assert keys[i] in m;
    }
  }

  /** Skipping past an overlapping segment skips no gap, and leaves fewer segments ending above. */
  lemma SkipStep(m: Mappings, base: nat, start: nat, len: nat, e: nat)
    requires WellFormed(m) && Headroom(m) && start % PAGE == 0
    requires AllTaken(m, base, start, len)
    requires exists k :: k in m && !Misses(m[k], start, start + len) && e == m[k].End()
    ensures AlignUp(e) % PAGE == 0 && start <= AlignUp(e) <= WORD - PAGE
    ensures AllTaken(m, base, AlignUp(e), len)
    ensures |EndingAbove(m, AlignUp(e))| < |EndingAbove(m, start)|
  {
    hide AlignUp;
    var k :| k in m && !Misses(m[k], start, start + len) && e == m[k].End();
    AlignUpIs(e);
    forall s: nat | base <= s < AlignUp(e) && s % PAGE == 0 ensures !Vacant(m, s, s + len) {
      if s >= start {
        assert s < e;
        assert !(m[k].End() <= s || s + len <= k);
      }
    }
    var above, above' := EndingAbove(m, start), EndingAbove(m, AlignUp(e));
    assert k in above && k !in above' && above' <= above - {k};
    CardinalityBelow(above', above - {k});
  }
}
