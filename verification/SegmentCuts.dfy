/** How the in-place edit of the segment map proceeds: `unmap` and `mprotect` walk a snapshot of the
keys while they change the map under it.
 */
module SegmentCuts {
  import opened Wrappers
  import opened Ordered
  import opened Segments

  /** What is at `x` when the segments keyed in `todo` have yet to be visited. */
  ghost function PartlyEdited(o: Option<Segment>, todo: seq<int>, lo: nat, hi: nat, prot: Option<nat>, x: int)
      : Option<Segment>
    requires o.Some? ==> o.value.Contains(x)
  {
    if o.Some? && o.value.start in todo then o else EditAt(o, lo, hi, prot, x)
  }

  ghost predicate EditedSoFar(m0: Mappings, m: Mappings, todo: seq<int>, lo: nat, hi: nat, prot: Option<nat>)
  {
    forall x :: SegmentAt(m, x) == PartlyEdited(SegmentAt(m0, x), todo, lo, hi, prot, x)
  }

  /** The keys still to be visited map to the segments they mapped to at the start. */
  ghost predicate Pending(m0: Mappings, m: Mappings, todo: seq<int>)
  {
    forall k :: k in todo ==> k in m0 && k in m && m[k] == m0[k]
  }

  /** `m'` is `m` with the segment at `k` edited and everything else as it was. */
  ghost predicate EditedOnly(m: Mappings, m': Mappings, k: int, lo: nat, hi: nat, prot: Option<nat>)
    requires k in m
  {
    && (forall j :: j in m && j != k ==> j in m' && m'[j] == m[j])
    && (forall x :: !m[k].Contains(x) ==> SegmentAt(m', x) == SegmentAt(m, x))
    && (forall x :: m[k].Contains(x) ==> SegmentAt(m', x) == EditAt(Some(m[k]), lo, hi, prot, x))
  }

  /** One visit moves one key from the part to do to the part done. */
  lemma VisitStep(m0: Mappings, m: Mappings, m': Mappings, todo: seq<int>, lo: nat, hi: nat, prot: Option<nat>)
    requires WellFormed(m0) && WellFormed(m) && todo != [] && Ascending(todo)
    requires Pending(m0, m, todo) && todo[0] in m
    requires EditedSoFar(m0, m, todo, lo, hi, prot)
    requires EditedOnly(m, m', todo[0], lo, hi, prot)
    ensures Pending(m0, m', todo[1..])
    ensures EditedSoFar(m0, m', todo[1..], lo, hi, prot)
  {
    hide WellFormed, SegmentAt, EditAt;
    var k := todo[0];
    forall x ensures SegmentAt(m', x) == PartlyEdited(SegmentAt(m0, x), todo[1..], lo, hi, prot, x) {
      OwnerIs(m0, k, x);
      assert todo == [k] + todo[1..];
    }
  }

  lemma NothingDoneYet(m: Mappings, todo: seq<int>, lo: nat, hi: nat, prot: Option<nat>)
    requires WellFormed(m) && forall k :: k in m ==> k in todo
    ensures EditedSoFar(m, m, todo, lo, hi, prot)
  {
    hide WellFormed;
    forall x | SegmentAt(m, x).Some? ensures SegmentAt(m, x).value.start in todo {
      SegmentAtHolds(m, x);
    }
  }

  lemma AllDone(m0: Mappings, m: Mappings, lo: nat, hi: nat, prot: Option<nat>)
    requires EditedSoFar(m0, m, [], lo, hi, prot)
    ensures Edited(m0, m, lo, hi, prot)
  {
    hide SegmentAt, EditAt;
  }

  /** Some segment keyed in `keys` meets `[lo, hi)`. */
  predicate AnyHit(m: Mappings, keys: seq<int>, lo: nat, hi: nat)
  {
    exists k :: k in keys && k in m && !Misses(m[k], lo, hi)
  }

  lemma NoHitLeft(m: Mappings, lo: nat, hi: nat)
    ensures !AnyHit(m, [], lo, hi)
  {
  }

  lemma AnyHitHead(m: Mappings, keys: seq<int>, lo: nat, hi: nat)
    requires keys != [] && keys[0] in m
    ensures AnyHit(m, keys, lo, hi) <==> !Misses(m[keys[0]], lo, hi) || AnyHit(m, keys[1..], lo, hi)
  {
    assert forall j :: j in keys <==> j == keys[0] || j in keys[1..];
  }

  lemma AnyHitIsOverlap(m: Mappings, keys: seq<int>, lo: nat, hi: nat)
    requires WellFormed(m) && forall k :: k in keys <==> k in m
    ensures AnyHit(m, keys, lo, hi) <==> !Vacant(m, lo, hi)
  {
  }

  /** An address belongs to the segment keyed `k` exactly when the segment contains it. */
  lemma OwnerIs(m: Mappings, k: int, x: int)
    requires WellFormed(m) && k in m
    ensures m[k].Contains(x) <==> SegmentAt(m, x).Some? && SegmentAt(m, x).value.start == k
    ensures m[k].Contains(x) ==> SegmentAt(m, x) == Some(m[k])
  {
    if m[k].Contains(x) {
      SegmentAtIs(m, k, x);
    } else if SegmentAt(m, x).Some? {
      SegmentAtHolds(m, x);
    }
  }
}
