/** The DMA arena: a first-fit page allocator over an array of 64-bit bitmap words. */
module DmaArenas {
  import opened Wrappers
  import opened Ordered
  import opened Bits

  // ----- bitmap words as a set of pages

  ghost function TakenPages(words: seq<nat>): set<int>
  {
    set p | 0 <= p < |words| * 64 && Bit(words[p / 64], p % 64)
  }

  ghost predicate Words64(words: seq<nat>)
  {
    forall i :: 0 <= i < |words| ==> words[i] < WORD
  }

  /** A page past the last word reads as free. */
  predicate BitIsSet(words: seq<nat>, page: nat)
  {
    page / 64 < |words| && And(words[page / 64], Pow2(page % 64)) != 0
  }

  lemma BitIsSetMeans(words: seq<nat>, page: nat)
    ensures BitIsSet(words, page) <==> page in TakenPages(words)
  {
    if page / 64 < |words| {
      AndPow2(words[page / 64], page % 64);
    }
  }

  function Flip(word: nat, bit: nat, value: bool): nat
    requires bit < 64
  {
    WordIsPow2();
    Pow2Strict(bit, 64);
    if value then Or(word, Pow2(bit)) else And(word, Not(Pow2(bit)))
  }

  lemma FlipMeans(word: nat, bit: nat, value: bool, i: nat)
    requires bit < 64 && i < 64
    ensures Bit(Flip(word, bit, value), i) <==> if i == bit then value else Bit(word, i)
  {
    hide Not;
    WordIsPow2();
    Pow2Strict(bit, 64);
    BitOfPow2(bit, i);
    if value {
      BitOfOr(word, Pow2(bit), i);
    } else {
      BitOfNot(Pow2(bit), i);
      BitOfAnd(word, Not(Pow2(bit)), i);
    }
  }

  lemma FlipBound(word: nat, bit: nat, value: bool)
    requires bit < 64 && word < WORD
    ensures Flip(word, bit, value) < WORD
  {
    hide Not, Or, And;
    WordIsPow2();
    Pow2Strict(bit, 64);
    if value {
      OrBound(word, Pow2(bit), 64);
    } else {
      AndBound(word, Not(Pow2(bit)));
    }
  }

  function WithPage(words: seq<nat>, page: nat, value: bool): seq<nat>
    requires page / 64 < |words|
  {
    words[page / 64 := Flip(words[page / 64], page % 64, value)]
  }

  lemma WithPageMeans(words: seq<nat>, page: nat, value: bool)
    requires page / 64 < |words|
    ensures TakenPages(WithPage(words, page, value)) ==
      if value then TakenPages(words) + {page} else TakenPages(words) - {page}
    ensures Words64(words) ==> Words64(WithPage(words, page, value))
  {
    hide Flip, Bit;
    var after := WithPage(words, page, value);
    forall p | 0 <= p < |words| * 64
      ensures Bit(after[p / 64], p % 64) <==> if p == page then value else Bit(words[p / 64], p % 64)
    {
      FlipMeans(words[page / 64], page % 64, value, p % 64);
      assert p == page <==> p / 64 == page / 64 && p % 64 == page % 64;
    }
    if Words64(words) {
      FlipBound(words[page / 64], page % 64, value);
    }
  }

  // ----- first fit

  predicate InRange(start: int, n: nat, p: int) { start <= p < start + n }

  function Range(start: int, n: nat): set<int>
  {
    set p | start <= p < start + n && InRange(start, n, p)
  }

  ghost predicate FreeRun(taken: set<int>, total: nat, start: int, n: nat)
  {
    0 <= start && start + n <= total && Range(start, n) !! taken
  }

  ghost function FreeStarts(taken: set<int>, total: nat, n: nat): set<int>
  {
    set s | 0 <= s <= total && FreeRun(taken, total, s, n)
  }

  /** The lowest page from which `n` pages are free. */
  ghost function FirstFit(taken: set<int>, total: nat, n: nat): (r: Option<int>)
    ensures r.None? <==> forall s :: !FreeRun(taken, total, s, n)
    ensures r.Some? ==> FreeRun(taken, total, r.value, n)
    ensures r.Some? ==> forall s :: 0 <= s < r.value ==> !FreeRun(taken, total, s, n)
  {
    var starts := FreeStarts(taken, total, n);
    assert forall s :: FreeRun(taken, total, s, n) ==> s in starts;
    if starts == {} then None else Some(Least(starts))
  }

  /** A page in use somewhere in the window of `n` pages from `s`. */
  ghost predicate Obstructed(taken: set<int>, s: int, n: nat)
  {
    exists p :: s <= p < s + n && p in taken
  }

  lemma ObstructedIsNotFree(taken: set<int>, total: nat, s: int, n: nat)
    requires Obstructed(taken, s, n)
    ensures !FreeRun(taken, total, s, n)
  {
    var p :| s <= p < s + n && p in taken;
    assert p in Range(s, n);
  }

  /** One step of the scan: everything before `runStart` is obstructed, everything since is free. */
  ghost predicate Scanned(taken: set<int>, n: nat, runStart: int, page: int)
  {
    && 0 <= runStart <= page
    && (forall s :: 0 <= s < runStart ==> Obstructed(taken, s, n))
    && Range(runStart, page - runStart) !! taken
  }

  lemma ScanTaken(taken: set<int>, n: nat, runStart: int, page: int)
    requires Scanned(taken, n, runStart, page) && page in taken && page - runStart < n
    ensures Scanned(taken, n, page + 1, page + 1)
  {
    forall s | 0 <= s < page + 1
      ensures Obstructed(taken, s, n)
    {
      if s >= runStart {
        assert s <= page < s + n;
      }
    }
  }

  lemma ScanFree(taken: set<int>, n: nat, runStart: int, page: int)
    requires Scanned(taken, n, runStart, page) && page !in taken
    ensures Scanned(taken, n, runStart, page + 1)
  {
    assert Range(runStart, page + 1 - runStart) == Range(runStart, page - runStart) + {page};
  }

  lemma ScanHit(taken: set<int>, total: nat, n: nat, runStart: int, page: int)
    requires Scanned(taken, n, runStart, page) && page - runStart == n && page <= total
    ensures FirstFit(taken, total, n) == Some(runStart)
  {
    assert FreeRun(taken, total, runStart, n);
    forall s | 0 <= s < runStart
      ensures !FreeRun(taken, total, s, n)
    {
      ObstructedIsNotFree(taken, total, s, n);
    }
  }

  lemma ScanMiss(taken: set<int>, total: nat, n: nat, runStart: int)
    requires Scanned(taken, n, runStart, total) && total - runStart < n
    ensures FirstFit(taken, total, n) == None
  {
    forall s | 0 <= s
      ensures !FreeRun(taken, total, s, n)
    {
      if s < runStart {
        ObstructedIsNotFree(taken, total, s, n);
      }
    }
  }

  // ----- runs

  datatype State = State(taken: set<int>, live: set<(int, nat)>)

  /** Allocation of a positive number of pages, or the matching free of a live range. */
  datatype Op = Alloc(n: nat) | Free(start: int, n: nat)

  ghost predicate Legal(s: State, op: Op)
  {
    op.Free? ==> (op.start, op.n) in s.live
  }

  ghost function Step(s: State, total: nat, op: Op): State
  {
    match op
    case Alloc(n) =>
      if n == 0 then s else
        (match FirstFit(s.taken, total, n)
         case None => s
         case Some(start) => State(s.taken + Range(start, n), s.live + {(start, n)}))
    case Free(start, n) => State(s.taken - Range(start, n), s.live - {(start, n)})
  }

  ghost predicate Covered(live: set<(int, nat)>, p: int)
  {
    exists r :: r in live && r.0 <= p < r.0 + r.1
  }

  /** Live ranges are in bounds and disjoint, and the bitmap marks exactly their pages. */
  ghost predicate Sound(s: State, total: nat)
  {
    && (forall r :: r in s.live ==> 0 <= r.0 && 0 < r.1 && r.0 + r.1 <= total)
    && (forall r, q :: r in s.live && q in s.live && r != q ==> r.0 + r.1 <= q.0 || q.0 + q.1 <= r.0)
    && (forall p :: p in s.taken <==> Covered(s.live, p))
  }

  lemma AllocKeepsSound(s: State, total: nat, start: int, n: nat)
    requires Sound(s, total) && n > 0 && FreeRun(s.taken, total, start, n)
    ensures Sound(State(s.taken + Range(start, n), s.live + {(start, n)}), total)
  {
    var u := State(s.taken + Range(start, n), s.live + {(start, n)});
    forall r | r in s.live
      ensures r.0 + r.1 <= start || start + n <= r.0
    {
      var p := if r.0 <= start then start else r.0;
      assert r.0 <= p < r.0 + r.1 ==> Covered(s.live, p);
      assert p in Range(start, n) ==> p !in s.taken;
    }
    forall p
      ensures p in u.taken <==> Covered(u.live, p)
    {
      if p in Range(start, n) {
        assert (start, n) in u.live;
      }
      if p in s.taken {
        var r :| r in s.live && r.0 <= p < r.0 + r.1;
        assert r in u.live;
      }
    }
  }

  lemma FreeKeepsSound(s: State, total: nat, start: int, n: nat)
    requires Sound(s, total) && (start, n) in s.live
    ensures Sound(State(s.taken - Range(start, n), s.live - {(start, n)}), total)
  {
    var u := State(s.taken - Range(start, n), s.live - {(start, n)});
    forall p
      ensures p in u.taken <==> Covered(u.live, p)
    {
      if p in u.taken {
        var r :| r in s.live && r.0 <= p < r.0 + r.1;
        assert r != (start, n);
        assert r in u.live;
      }
    }
  }

  lemma StepKeepsSound(s: State, total: nat, op: Op)
    requires Sound(s, total) && Legal(s, op)
    ensures Sound(Step(s, total, op), total)
  {
    hide Sound, FreeRun, FirstFit;
    match op
    case Alloc(n) =>
      if n > 0 && FirstFit(s.taken, total, n).Some? {
        AllocKeepsSound(s, total, FirstFit(s.taken, total, n).value, n);
      }
    case Free(start, n) => FreeKeepsSound(s, total, start, n);
  }

  ghost predicate Reaches(s: State, total: nat, ops: seq<Op>, u: State)
    decreases |ops|
  {
    if ops == [] then s == u else Legal(s, ops[0]) && Reaches(Step(s, total, ops[0]), total, ops[1..], u)
  }

  lemma {:induction false} RunKeepsSound(s: State, total: nat, ops: seq<Op>, u: State)
    requires Sound(s, total) && Reaches(s, total, ops, u)
    ensures Sound(u, total)
    decreases |ops|
  {
    if ops != [] {
      StepKeepsSound(s, total, ops[0]);
      RunKeepsSound(Step(s, total, ops[0]), total, ops[1..], u);
    }
  }

  /** In every run of allocations and matching frees on a new arena, live ranges stay in bounds and disjoint, and no
      page outside them is marked: nothing is lost and nothing is handed out twice. */
  lemma EveryRunSound(total: nat, ops: seq<Op>, u: State)
    requires Reaches(State({}, {}), total, ops, u)
    ensures Sound(u, total)
  {
    RunKeepsSound(State({}, {}), total, ops, u);
  }

  /** A free right after its allocation restores the page set. */
  lemma FreeUndoesAlloc(s: State, total: nat, n: nat)
    requires Sound(s, total) && n > 0 && FirstFit(s.taken, total, n).Some?
    ensures Step(Step(s, total, Alloc(n)), total, Free(FirstFit(s.taken, total, n).value, n)) == s
  {
    var start := FirstFit(s.taken, total, n).value;
    assert s.taken + Range(start, n) - Range(start, n) == s.taken;
    assert start in Range(start, n);
    assert (start, n) in s.live ==> Covered(s.live, start);
    assert s.live + {(start, n)} - {(start, n)} == s.live;
  }

  // ----- the arena

  lemma RangeSnoc(start: int, n: nat)
    ensures Range(start, n + 1) == Range(start, n) + {start + n}
  {
  }

  class DmaArena {
    const base: nat
    const bytes: nat
    const bitmap: array<nat>
    const storage: array<nat>

    constructor (base: nat, bytes: nat, words: nat)
      requires base % PAGE == 0 && base + bytes <= WORD
      ensures Valid() && fresh(bitmap) && fresh(storage)
      ensures this.base == base && this.bytes == bytes && bitmap.Length == words
      ensures TakenPages(bitmap[..]) == {}
    {
      this.base, this.bytes := base, bytes;
      bitmap := new nat[words](_ => 0);
      storage := new nat[bytes](_ => 0);
      new;
      forall p: nat
        ensures !Bit(0, p)
      {
        BitOfZero(p);
      }
    }

    /** The storage is page aligned. */
    ghost predicate Valid()
      reads this, bitmap
    {
      base % PAGE == 0 && base + bytes <= WORD && storage.Length == bytes && bitmap != storage && Words64(bitmap[..])
    }

    function Total(): nat
      reads this
    {
      bytes / PAGE
    }

    method SetRange(start: nat, n: nat, value: bool)
      requires Valid() && start + n <= bitmap.Length * 64
      modifies bitmap
      ensures Valid()
      ensures TakenPages(bitmap[..]) ==
        if value then old(TakenPages(bitmap[..])) + Range(start, n) else old(TakenPages(bitmap[..])) - Range(start, n)
    {
      hide TakenPages, Words64, Flip;
      var i := 0;
      assert Range(start, 0) == {};
      while i < n
        invariant 0 <= i <= n && Valid()
        invariant TakenPages(bitmap[..]) ==
          if value then old(TakenPages(bitmap[..])) + Range(start, i) else old(TakenPages(bitmap[..])) - Range(start, i)
      {
        var page := start + i;
        ghost var words := bitmap[..];
        WithPageMeans(words, page, value);
        RangeSnoc(start, i);
        bitmap[page / 64] := Flip(bitmap[page / 64], page % 64, value);
        assert bitmap[..] == WithPage(words, page, value);
        i := i + 1;
      }
    }

    method Clear(offset: nat, n: nat)
      requires offset + n <= storage.Length
      modifies storage
      ensures forall i :: 0 <= i < storage.Length ==>
        storage[i] == if offset <= i < offset + n then 0 else old(storage[i])
    {
      forall i | offset <= i < offset + n {
        storage[i] := 0;
      }
    }

    /** The lowest run of free pages, marked and zeroed; None for no pages, for a bitmap that does not reach
        the end of the storage, and when no run is free. */
    method Alloc(pages: nat) returns (r: Option<nat>)
      requires Valid()
      modifies bitmap, storage
      ensures Valid()
      ensures r.None? <==>
        || pages == 0 || bitmap.Length * 64 < Total()
        || old(FirstFit(TakenPages(bitmap[..]), Total(), pages)).None?
      ensures r.None? ==> bitmap[..] == old(bitmap[..]) && storage[..] == old(storage[..])
      ensures r.Some? ==>
        var fit := old(FirstFit(TakenPages(bitmap[..]), Total(), pages));
        && fit.Some? && r.value == base + fit.value * PAGE
        && TakenPages(bitmap[..]) == old(TakenPages(bitmap[..])) + Range(fit.value, pages)
      ensures r.Some? ==> r.value - base + pages * PAGE <= bytes
      ensures r.Some? ==> forall i :: 0 <= i < bytes ==>
        storage[i] == if r.value - base <= i < r.value - base + pages * PAGE then 0 else old(storage[i])
    {
      hide TakenPages, Words64, FirstFit, Range, Scanned, BitIsSet;
      if pages == 0 {
        return None;
      }
      ghost var taken := TakenPages(bitmap[..]);
      TooManyPages(taken, Total(), pages);
      if pages > Total() || bitmap.Length * 64 < Total() {
        return None;
      }
      var runStart, runLen, page := 0, 0, 0;
      ScanBegins(taken, pages);
      while page < Total()
        invariant 0 <= runStart && 0 <= runLen < pages && runStart + runLen == page <= Total()
        invariant Scanned(taken, pages, runStart, page)
        invariant bitmap[..] == old(bitmap[..]) && storage[..] == old(storage[..])
      {
        BitIsSetMeans(bitmap[..], page);
        if BitIsSet(bitmap[..], page) {
          ScanTaken(taken, pages, runStart, page);
          runStart := page + 1;
          runLen := 0;
        } else {
          ScanFree(taken, pages, runStart, page);
          runLen := runLen + 1;
          if runLen == pages {
            ScanHit(taken, Total(), pages, runStart, page + 1);
            SetRange(runStart, pages, true);
            RunFits(bytes, runStart, pages);
            Clear(runStart * PAGE, pages * PAGE);
            return Some(base + runStart * PAGE);
          }
        }
        page := page + 1;
      }
      ScanMiss(taken, Total(), pages, runStart);
      r := None;
    }

    /** The pages from `paddr` on are pages of the arena. */
    predicate InArena(paddr: nat, pages: nat)
    {
      base <= paddr < base + bytes && paddr % PAGE == 0 && paddr - base + pages * PAGE <= bytes
    }

    /** Exactly the named pages are released, or nothing changes. */
    method Dealloc(paddr: nat, pages: nat) returns (code: int)
      requires Valid() && Total() <= bitmap.Length * 64
      modifies bitmap
      ensures Valid()
      ensures code == if pages == 0 || InArena(paddr, pages) then 0 else -1
      ensures pages == 0 || code == -1 ==> bitmap[..] == old(bitmap[..])
      ensures pages > 0 && code == 0 ==>
        TakenPages(bitmap[..]) == old(TakenPages(bitmap[..])) - Range((paddr - base) / PAGE, pages)
    {
      if pages == 0 {
        return 0;
      }
      if paddr < base || paddr >= base + bytes || paddr % PAGE != 0 {
        return -1;
      }
      var offset := paddr - base;
      if offset + pages * PAGE > bytes {
        return -1;
      }
      PagesFit(bytes, offset, pages);
      SetRange(offset / PAGE, pages, false);
      code := 0;
    }
  }

  lemma TooManyPages(taken: set<int>, total: nat, n: nat)
    ensures n > total ==> FirstFit(taken, total, n) == None
  {
  }

  lemma ScanBegins(taken: set<int>, n: nat)
    ensures Scanned(taken, n, 0, 0)
  {
  }

  lemma RunFits(bytes: nat, start: nat, n: nat)
    requires start + n <= bytes / PAGE
    ensures start * PAGE + n * PAGE <= bytes
  {
  }

  lemma PagesFit(bytes: nat, offset: nat, n: nat)
    requires offset + n * PAGE <= bytes
    ensures offset / PAGE + n <= bytes / PAGE
  {
  }
}
