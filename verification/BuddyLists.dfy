/** The buddy heap as values: one list of free addresses per order, what `init`, `alloc` and
`dealloc` do to the lists, and what every run of them keeps.
 */
module BuddyLists {
  import opened Bits
  import opened Sequences
  import opened BuddyBlocks
  import opened Wrappers

  type Lists = seq<seq<nat>>

  /** A layout as the allocator receives it: a size and a power-of-two alignment. */
  datatype Layout = Layout(size: nat, alignLog: nat)
  {
    function Align(): nat { Pow2(alignLog) }

    /** `size.max(align).max(8).next_power_of_two().trailing_zeros()` */
    function Order(): nat
    {
      TrailingZeros(Pow2(CeilLog2(Max(Max(size, Align()), 8))))
    }
  }

  function FreeSet(ls: Lists): set<Block>
  {
    set o, i | 0 <= o < |ls| && 0 <= i < |ls[o]| :: Block(ls[o][i], o)
  }

  function Push(ls: Lists, o: nat, p: nat): Lists
    requires o < |ls|
  {
    ls[o := [p] + ls[o]]
  }

  function Remove(ls: Lists, o: nat, i: nat): Lists
    requires o < |ls| && i < |ls[o]|
  {
    ls[o := ls[o][..i] + ls[o][i + 1..]]
  }

  /** What holds of the lists `ls` and the live blocks in every reachable state. */
  ghost predicate Inv(ls: Lists, live: set<Block>, lo: nat, hi: nat)
  {
    && (forall o :: 0 <= o < |ls| ==> NoDup(ls[o]))
    && FreeSet(ls) !! live
    && Tiles(FreeSet(ls) + live, lo, hi)
    && NoBuddies(FreeSet(ls))
    && (forall b :: b in live ==> b.order < |ls|)
  }

  // ----- lists as sets

  lemma FreeSetOfPush(ls: Lists, o: nat, p: nat)
    requires o < |ls|
    ensures FreeSet(Push(ls, o, p)) == FreeSet(ls) + {Block(p, o)}
  {
    var ls' := Push(ls, o, p);
    forall b | b in FreeSet(ls) ensures b in FreeSet(ls') {
      var q, i :| 0 <= q < |ls| && 0 <= i < |ls[q]| && b == Block(ls[q][i], q);
      var j := if q == o then i + 1 else i;
      assert Block(ls'[q][j], q) == b;
    }
    assert ls'[o][0] == p;
    forall b | b in FreeSet(ls') ensures b in FreeSet(ls) + {Block(p, o)} {
      var q, i :| 0 <= q < |ls'| && 0 <= i < |ls'[q]| && b == Block(ls'[q][i], q);
      assert q == o && i > 0 ==> ls[o][i - 1] == ls'[o][i];
    }
  }

  lemma FreeSetOfRemove(ls: Lists, o: nat, i: nat)
    requires o < |ls| && i < |ls[o]| && NoDup(ls[o])
    ensures NoDup(Remove(ls, o, i)[o])
    ensures FreeSet(Remove(ls, o, i)) == FreeSet(ls) - {Block(ls[o][i], o)}
  {
    var ls' := Remove(ls, o, i);
    forall b | b in FreeSet(ls) && b != Block(ls[o][i], o) ensures b in FreeSet(ls') {
      var q, k :| 0 <= q < |ls| && 0 <= k < |ls[q]| && b == Block(ls[q][k], q);
      var j := if q == o && k > i then k - 1 else k;
      assert Block(ls'[q][j], q) == b;
    }
    forall b | b in FreeSet(ls') ensures b in FreeSet(ls) - {Block(ls[o][i], o)} {
      var q, k :| 0 <= q < |ls'| && 0 <= k < |ls'[q]| && b == Block(ls'[q][k], q);
      assert q == o && k < i ==> ls'[o][k] == ls[o][k];
      assert q == o && k >= i ==> ls'[o][k] == ls[o][k + 1];
    }
  }

  // ----- the four elementary steps, each between two states of the invariant

  /** Taking a free block off its list makes it live. */
  lemma TakeStep(ls: Lists, live: set<Block>, lo: nat, hi: nat, o: nat, i: nat)
    requires Inv(ls, live, lo, hi) && o < |ls| && i < |ls[o]|
    ensures Inv(Remove(ls, o, i), live + {Block(ls[o][i], o)}, lo, hi)
    ensures Block(ls[o][i], o) !in live
  {
    var b := Block(ls[o][i], o);
    FreeSetOfRemove(ls, o, i);
    assert b in FreeSet(ls);
    assert FreeSet(Remove(ls, o, i)) + (live + {b}) == FreeSet(ls) + live;
  }

  /** Putting a live block on its list keeps the invariant when its buddy is not free. */
  lemma PutStep(ls: Lists, live: set<Block>, lo: nat, hi: nat, b: Block)
    requires Inv(ls, live, lo, hi) && b in live && b.Buddy() !in FreeSet(ls)
    ensures Inv(Push(ls, b.order, b.addr), live - {b}, lo, hi)
  {
    var ls' := Push(ls, b.order, b.addr);
    FreeSetOfPush(ls, b.order, b.addr);
    assert b !in FreeSet(ls);
    forall i | 0 <= i < |ls[b.order]| ensures ls[b.order][i] != b.addr {
      assert Block(ls[b.order][i], b.order) in FreeSet(ls);
    }
    assert NoDup(ls'[b.order]);
    assert FreeSet(ls') + (live - {b}) == FreeSet(ls) + live;
    BuddyParent(b);
    forall c | c in FreeSet(ls') ensures c.Buddy() !in FreeSet(ls') {
      BuddyParent(c);
    }
  }

  /** A live block splits: the upper half goes on the list below, which is empty. */
  lemma SplitStep(ls: Lists, live: set<Block>, lo: nat, hi: nat, b: Block)
    requires Inv(ls, live, lo, hi) && b in live && b.order > MIN_ORDER
    requires ls[b.order - 1] == []
    ensures Inv(Push(ls, b.order - 1, b.Upper().addr), live - {b} + {b.Lower()}, lo, hi)
    ensures b.Lower() !in live
  {
    var l, u := b.Lower(), b.Upper();
    var free := FreeSet(ls);
    SplitTiles(free + live, b, l, u, lo, hi);
    HalvesAligned(b);
    assert free + live - {b} + {l, u} == free + (live - {b} + {l, u});
    var mid := live - {b} + {l, u};
    assert l.Buddy() !in free by {
      assert forall c :: c in free ==> c.order != b.order - 1;
    }
    assert Inv(ls, mid, lo, hi);
    PutStep(ls, mid, lo, hi, u);
    assert mid - {u} == live - {b} + {l};
  }

  /** A live block whose buddy is free absorbs it. */
  lemma MergeStep(ls: Lists, live: set<Block>, lo: nat, hi: nat, b: Block, i: nat)
    requires Inv(ls, live, lo, hi) && b in live && b.order + 1 < |ls|
    requires i < |ls[b.order]| && ls[b.order][i] == b.Buddy().addr
    ensures Inv(Remove(ls, b.order, i), live - {b} + {b.Parent()}, lo, hi)
    ensures b.Parent() !in live
  {
    var c, p := b.Buddy(), b.Parent();
    var ls' := Remove(ls, b.order, i);
    TakeStep(ls, live, lo, hi, b.order, i);
    var all := FreeSet(ls') + (live + {c});
    MergeTiles(all, b, c, p, lo, hi);
    FreeSetOfRemove(ls, b.order, i);
    assert all - {b, c} + {p} == FreeSet(ls') + (live - {b} + {p});
  }

  // ----- init

  /** The block that `init` carves at `c`:
      `min(lowbit(c), prev_power_of_two(hi - c))`, filed under its number of trailing zeros. */
  function GreedyBlock(c: nat, hi: nat): Block
    requires 0 < c < hi < WORD
  {
    var size := Min(And(c, Not(c) + 1), Pow2(HighestBit(hi - c)));
    Lowbit(c);
    Block(c, TrailingZeros(size))
  }

  lemma GreedyBlockOrder(c: nat, hi: nat)
    requires 0 < c < hi < WORD
    ensures GreedyBlock(c, hi).order == Min(TrailingZeros(c), HighestBit(hi - c))
    ensures GreedyBlock(c, hi).Aligned() && GreedyBlock(c, hi).End() <= hi
  {
    var t, h := TrailingZeros(c), HighestBit(hi - c);
    Lowbit(c);
    HighestBitBounds(hi - c);
    if t <= h {
      Pow2Monotone(t, h);
      TrailingZerosOfPow2(t);
    } else {
      Pow2Strict(h, t);
      TrailingZerosOfPow2(h);
    }
    TrailingZerosDivides(c, GreedyBlock(c, hi).order);
  }

  /** The blocks `init` makes out of `[c, hi)`. */
  ghost function GreedySet(c: nat, hi: nat): set<Block>
    requires 0 < c && hi < WORD
    decreases hi - c
  {
    if c + 8 <= hi then
      var b := GreedyBlock(c, hi);
      {b} + GreedySet(b.End(), hi)
    else
      {}
  }

  /** The lists after `init` has carved `[c, hi)` on top of `ls`. */
  function InitLists(c: nat, hi: nat, ls: Lists): Lists
    requires 0 < c && hi < WORD
    requires forall b :: b in GreedySet(c, hi) ==> b.order < |ls|
    decreases hi - c
  {
    if c + 8 <= hi then
      var b := GreedyBlock(c, hi);
      InitLists(b.End(), hi, Push(ls, b.order, c))
    else
      ls
  }

  lemma {:induction false} GreedyInBounds(c: nat, hi: nat)
    requires 0 < c && hi < WORD && c % 8 == 0 && hi % 8 == 0
    ensures InBounds(GreedySet(c, hi), c, hi)
    ensures PairwiseApart(GreedySet(c, hi))
    decreases hi - c
  {
    if c + 8 <= hi {
      var b := NextCarve(c, hi);
      GreedyInBounds(b.End(), hi);
    }
  }

  /** Each carve is at least one word and leaves a word-aligned rest. */
  lemma NextCarve(c: nat, hi: nat) returns (b: Block)
    requires 0 < c && c + 8 <= hi < WORD && c % 8 == 0
    ensures b == GreedyBlock(c, hi) && b.Aligned() && b.order >= MIN_ORDER
    ensures b.End() <= hi && b.End() % 8 == 0 && b.Size() >= 8
  {
    b := GreedyBlock(c, hi);
    GreedyBlockOrder(c, hi);
    CarveOrder(c, hi);
    WordMultiple(b);
  }

  lemma CarveOrder(c: nat, hi: nat)
    requires 0 < c && c + 8 <= hi && c % 8 == 0
    ensures TrailingZeros(c) >= 3 && HighestBit(hi - c) >= 3
  {
    WordIsPow2();
    TrailingZerosDivides(c, 3);
    HighestBitBounds(hi - c);
    if HighestBit(hi - c) < 3 {
      Pow2Strict(HighestBit(hi - c), 3);
    }
  }

  lemma WordMultiple(b: Block)
    requires b.order >= MIN_ORDER && b.addr % 8 == 0
    ensures b.Size() >= 8 && b.End() % 8 == 0
  {
    WordIsPow2();
    Pow2Add(b.order - 3, 3);
    hide Pow2;
    WordsAfter(b.addr, Pow2(b.order - 3));
  }

  lemma WordsAfter(addr: nat, k: nat)
    requires addr % 8 == 0 && k > 0
    ensures k * 8 >= 8 && (addr + k * 8) % 8 == 0
  {
    DivUnique(addr + k * 8, 8, addr / 8 + k, 0);
  }

  lemma WordApart(c: nat, hi: nat)
    requires c % 8 == 0 && hi % 8 == 0 && c < hi
    ensures c + 8 <= hi
  {
  }

  lemma {:induction false} GreedyCovers(c: nat, hi: nat, x: int)
    requires 0 < c && hi < WORD && c % 8 == 0 && hi % 8 == 0
    requires c <= x < hi
    ensures Covered(GreedySet(c, hi), x)
    decreases hi - c
  {
    WordApart(c, hi);
    var b := NextCarve(c, hi);
    assert GreedySet(c, hi) == {b} + GreedySet(b.End(), hi);
    hide GreedySet, GreedyBlock, Pow2;
    if !b.Contains(x) {
      GreedyCovers(b.End(), hi, x);
      var d :| d in GreedySet(b.End(), hi) && d.Contains(x);
      assert d in GreedySet(c, hi);
    }
  }

  /** A carved block that is the lower of two buddies has no room for the upper. */
  lemma {:induction false} GreedyMaximal(c: nat, hi: nat, b: Block)
    requires 0 < c && hi < WORD && b in GreedySet(c, hi)
    requires b.addr % Pow2(b.order + 1) == 0
    ensures b.addr + 2 * b.Size() > hi
    decreases hi - c
  {
    if b == GreedyBlock(c, hi) {
      GreedyBlockOrder(c, hi);
      TrailingZerosDivides(c, b.order + 1);
      HighestBitBounds(hi - c);
    } else {
      GreedyMaximal(GreedyBlock(c, hi).End(), hi, b);
    }
  }

  /** `init` tiles the heap exactly, and leaves no two buddies unmerged. */
  lemma GreedyIsCanonical(lo: nat, hi: nat)
    requires 0 < lo && hi < WORD && lo % 8 == 0 && hi % 8 == 0
    ensures Tiles(GreedySet(lo, hi), lo, hi)
    ensures NoBuddies(GreedySet(lo, hi))
  {
    var s := GreedySet(lo, hi);
    GreedyInBounds(lo, hi);
    forall x | lo <= x < hi ensures Covered(s, x) { GreedyCovers(lo, hi, x); }
    forall b | b in s ensures b.Buddy() !in s {
      BuddyParent(b);
      var p := b.Parent();
      HalvesAligned(p);
      if p.Lower() in s {
        GreedyMaximal(lo, hi, p.Lower());
        assert p.Upper() !in s;
      }
    }
  }

  ghost predicate Fits(b: Block, lo: nat, hi: nat)
  {
    b.Aligned() && lo <= b.addr && b.End() <= hi
  }

  /** No aligned block of order `n` fits in the heap. */
  ghost predicate NoOversize(lo: nat, hi: nat, n: nat)
  {
    forall a: nat :: !Fits(Block(a, n), lo, hi)
  }

  /** `init` stays within its `n` lists exactly when no aligned block of order `n` fits. */
  lemma InitFitsIff(lo: nat, hi: nat, n: nat)
    requires 0 < lo && hi < WORD && lo % 8 == 0 && hi % 8 == 0 && n >= MIN_ORDER
    ensures (forall b :: b in GreedySet(lo, hi) ==> b.order < n) <==> NoOversize(lo, hi, n)
  {
    var s := GreedySet(lo, hi);
    GreedyIsCanonical(lo, hi);
    if NoOversize(lo, hi, n) {
      forall b | b in s ensures b.order < n {
        if b.order >= n {
          FitsBelow(b, lo, hi, n);
          assert false;
        }
      }
    } else {
      var a: nat :| Fits(Block(a, n), lo, hi);
      var c := CoveredInsideOne(s, lo, hi, Block(a, n));
      if c.order < n {
        InsideSmall(Block(a, n), c);
      }
    }
  }

  /** A heap that is one aligned block of order `n` does not fit `n` lists. */
  lemma OversizeHeapOverruns(n: nat)
    requires MIN_ORDER <= n && 2 * Pow2(n) < WORD
    ensures exists b :: b in GreedySet(Pow2(n), 2 * Pow2(n)) && b.order >= n
  {
    hide Pow2, GreedySet, NoOversize;
    var lo := Pow2(n);
    PowerIsAligned(n);
    InitFitsIff(lo, 2 * lo, n);
    HeapFitsItself(lo, n);
  }

  lemma HeapFitsItself(lo: nat, n: nat)
    requires lo == Pow2(n)
    ensures !NoOversize(lo, 2 * lo, n)
  {
    hide Pow2;
    MultipleMod(1, lo);
    assert Fits(Block(lo, n), lo, 2 * lo);
  }

  lemma PowerIsAligned(n: nat)
    requires n >= MIN_ORDER
    ensures Pow2(n) % 8 == 0 && (2 * Pow2(n)) % 8 == 0
  {
    hide Pow2;
    WordIsPow2();
    MultipleMod(1, Pow2(n));
    MultipleMod(2, Pow2(n));
    Pow2Divides(3, n, Pow2(n));
    Pow2Divides(3, n, 2 * Pow2(n));
  }

  lemma FitsBelow(b: Block, lo: nat, hi: nat, n: nat)
    requires Fits(b, lo, hi) && n <= b.order
    ensures Fits(Block(b.addr, n), lo, hi)
  {
    Pow2Divides(n, b.order, b.addr);
    Pow2Monotone(n, b.order);
  }

  /** A heap shorter than `2^n` has no such block. */
  lemma ShortHeapFits(lo: nat, hi: nat, n: nat)
    requires hi < lo + Pow2(n)
    ensures NoOversize(lo, hi, n)
  {
  }

  lemma {:induction false} InitListsSet(c: nat, hi: nat, ls: Lists)
    requires 0 < c && hi < WORD
    requires forall b :: b in GreedySet(c, hi) ==> b.order < |ls|
    ensures |InitLists(c, hi, ls)| == |ls|
    ensures FreeSet(InitLists(c, hi, ls)) == FreeSet(ls) + GreedySet(c, hi)
    decreases hi - c
  {
    if c + 8 <= hi {
      var b := GreedyBlock(c, hi);
      FreeSetOfPush(ls, b.order, c);
      InitListsSet(b.End(), hi, Push(ls, b.order, c));
    }
  }

  /** Addresses are carved upwards, so no list holds one twice. */
  lemma {:induction false} InitListsNoDup(c: nat, hi: nat, ls: Lists)
    requires 0 < c && hi < WORD
    requires forall b :: b in GreedySet(c, hi) ==> b.order < |ls|
    requires forall o :: 0 <= o < |ls| ==> NoDup(ls[o])
    requires forall o, i :: 0 <= o < |ls| && 0 <= i < |ls[o]| ==> ls[o][i] < c
    ensures |InitLists(c, hi, ls)| == |ls|
    ensures forall o :: 0 <= o < |ls| ==> NoDup(InitLists(c, hi, ls)[o])
    decreases hi - c
  {
    if c + 8 <= hi {
      var b := GreedyBlock(c, hi);
      InitListsNoDup(b.End(), hi, Push(ls, b.order, c));
    }
  }

  function EmptyLists(n: nat): Lists { seq(n, _ => []) }

  lemma InitKeeps(lo: nat, hi: nat, n: nat)
    requires 0 < lo && hi < WORD && lo % 8 == 0 && hi % 8 == 0 && n >= MIN_ORDER
    requires NoOversize(lo, hi, n)
    ensures forall b :: b in GreedySet(lo, hi) ==> b.order < n
    ensures FreeSet(InitLists(lo, hi, EmptyLists(n))) == GreedySet(lo, hi)
    ensures |InitLists(lo, hi, EmptyLists(n))| == n
    ensures Inv(InitLists(lo, hi, EmptyLists(n)), {}, lo, hi)
  {
    var ls := EmptyLists(n);
    InitFitsIff(lo, hi, n);
    GreedyIsCanonical(lo, hi);
    InitListsSet(lo, hi, ls);
    InitListsNoDup(lo, hi, ls);
    assert FreeSet(ls) == {};
    assert FreeSet(InitLists(lo, hi, ls)) + {} == GreedySet(lo, hi);
  }

  // ----- alloc

  /** The first order from `o` up whose list is not empty; `|ls|` if there is none. */
  function FirstNonEmpty(ls: Lists, o: nat): (k: nat)
    ensures k < |ls| ==> o <= k && ls[k] != [] && forall j :: o <= j < k ==> ls[j] == []
    ensures k >= |ls| ==> forall j :: o <= j < |ls| ==> ls[j] == []
    decreases |ls| - o
  {
    if o >= |ls| then |ls|
    else if ls[o] != [] then o
    else FirstNonEmpty(ls, o + 1)
  }

  /** The lists after the block at `p` of order `k` has been halved down to order `so`. */
  function SplitDown(ls: Lists, p: nat, k: nat, so: nat): (r: Lists)
    requires so <= k < |ls|
    ensures |r| == |ls|
    ensures forall j :: 0 <= j < so ==> r[j] == ls[j]
    decreases k - so
  {
    if so == k then ls else Push(SplitDown(ls, p, k, so + 1), so, p + Pow2(so))
  }

  function Alloc(ls: Lists, so: nat): (Option<nat>, Lists)
  {
    var k := FirstNonEmpty(ls, so);
    if k >= |ls| then (None, ls)
    else (Some(ls[k][0]), SplitDown(Remove(ls, k, 0), ls[k][0], k, so))
  }

  lemma {:induction false} SplitDownKeeps(ls: Lists, live: set<Block>, lo: nat, hi: nat, b: Block, so: nat)
    requires Inv(ls, live, lo, hi) && b in live && MIN_ORDER <= so <= b.order
    requires forall j :: so <= j < b.order ==> ls[j] == []
    ensures Inv(SplitDown(ls, b.addr, b.order, so), live - {b} + {Block(b.addr, so)}, lo, hi)
    ensures Block(b.addr, so) !in live - {b}
    decreases b.order - so
  {
    assert b.order < |ls|;
    hide Inv, Pow2;
    if b.order == so {
      assert live - {b} + {b} == live;
    } else {
      var c := Block(b.addr, so + 1);
      var ls', live' := SplitDown(ls, b.addr, b.order, so + 1), live - {b} + {c};
      SplitDownKeeps(ls, live, lo, hi, b, so + 1);
      assert ls'[so] == ls[so];
      assert SplitDown(ls, b.addr, b.order, so) == Push(ls', so, c.Upper().addr);
      hide SplitDown, Push;
      SplitStep(ls', live', lo, hi, c);
      assert live' - {c} == live - {b};
    }
  }

  /** A successful `alloc` turns free memory into exactly one more live block of the order asked. */
  lemma AllocKeeps(ls: Lists, live: set<Block>, lo: nat, hi: nat, so: nat)
    requires Inv(ls, live, lo, hi) && MIN_ORDER <= so
    ensures var (r, ls') := Alloc(ls, so);
      match r
      case None => ls' == ls
      case Some(p) => Block(p, so) !in live && Inv(ls', live + {Block(p, so)}, lo, hi)
  {
    var k := FirstNonEmpty(ls, so);
    if k < |ls| {
      var b := Block(ls[k][0], k);
      TakeStep(ls, live, lo, hi, k, 0);
      SplitDownKeeps(Remove(ls, k, 0), live + {b}, lo, hi, b, so);
      assert live + {b} - {b} == live;
    }
  }

  /** `alloc` fails exactly when no aligned range of the size asked is entirely free. */
  lemma AllocFailsIff(ls: Lists, live: set<Block>, lo: nat, hi: nat, so: nat)
    requires Inv(ls, live, lo, hi) && MIN_ORDER <= so
    ensures Alloc(ls, so).0.None? <==>
      forall a: nat :: Block(a, so).Aligned() ==> !AllFree(ls, Block(a, so))
  {
    var k := FirstNonEmpty(ls, so);
    assert InBounds(FreeSet(ls), lo, hi);
    if k < |ls| {
      var b := Block(ls[k][0], k);
      assert b in FreeSet(ls);
      Pow2Divides(so, k, b.addr);
      Pow2Monotone(so, k);
      var a := Block(b.addr, so);
      forall x | a.Contains(x) ensures Covered(FreeSet(ls), x) { assert b.Contains(x); }
      assert AllFree(ls, Block(b.addr, so));
    } else if a: nat :| Block(a, so).Aligned() && AllFree(ls, Block(a, so)) {
      var c := CoveredInsideOne(FreeSet(ls), lo, hi, Block(a, so));
      if c.order < so {
        InsideSmall(Block(a, so), c);
      }
      assert false;
    }
  }

  ghost predicate AllFree(ls: Lists, a: Block)
  {
    forall x :: a.Contains(x) ==> Covered(FreeSet(ls), x)
  }

  /** A block of the layout's order is large enough for the layout and meets its alignment. */
  lemma OrderServesLayout(y: Layout, b: Block)
    requires b.Aligned() && b.order == y.Order()
    ensures MIN_ORDER <= b.order
    ensures y.size <= b.Size() && b.addr % y.Align() == 0
    ensures forall n: nat :: y.size <= Pow2(n) && y.Align() <= Pow2(n) && MIN_ORDER <= n ==> y.Order() <= n
  {
    var need := Max(Max(y.size, y.Align()), 8);
    CeilLog2Bounds(need);
    TrailingZerosOfPow2(CeilLog2(need));
    WordIsPow2();
    if b.order < 3 {
      Pow2Strict(b.order, 3);
    }
    if b.order < y.alignLog {
      Pow2Strict(b.order, y.alignLog);
    }
    Pow2Divides(y.alignLog, b.order, b.addr);
    forall n: nat | y.size <= Pow2(n) && y.Align() <= Pow2(n) && MIN_ORDER <= n
      ensures y.Order() <= n
    {
      Pow2Monotone(3, n);
    }
  }

  // ----- dealloc

  /** The position of `x` in `l`, or `|l|`. */
  function IndexOf(l: seq<nat>, x: nat): (i: nat)
    ensures i <= |l|
    ensures i < |l| ==> l[i] == x
    ensures forall j :: 0 <= j < i ==> l[j] != x
  {
    if l == [] then 0 else if l[0] == x then 0 else 1 + IndexOf(l[1..], x)
  }

  /** `dealloc` looks for the buddy only when it lies in the heap. */
  predicate BuddyInRange(b: Block, lo: nat, hi: nat)
  {
    !(b.Buddy().addr < lo || SaturatingAdd(b.Buddy().addr, b.Size()) > hi)
  }

  function Dealloc(ls: Lists, b: Block, lo: nat, hi: nat): (r: Lists)
    requires b.order < |ls|
    ensures |r| == |ls|
    decreases |ls| - b.order
  {
    if b.order + 1 < |ls| && BuddyInRange(b, lo, hi) then
      var i := IndexOf(ls[b.order], b.Buddy().addr);
      if i < |ls[b.order]| then Dealloc(Remove(ls, b.order, i), b.Parent(), lo, hi)
      else Push(ls, b.order, b.addr)
    else
      Push(ls, b.order, b.addr)
  }

  /** `dealloc` gives the block's memory back, merged with every free buddy on the way up. */
  lemma {:induction false} DeallocKeeps(ls: Lists, live: set<Block>, lo: nat, hi: nat, b: Block)
    requires Inv(ls, live, lo, hi) && b in live
    requires hi < WORD && NoOversize(lo, hi, |ls|)
    ensures Inv(Dealloc(ls, b, lo, hi), live - {b}, lo, hi)
    decreases |ls| - b.order
  {
    var i := IndexOf(ls[b.order], b.Buddy().addr);
    if b.order + 1 < |ls| && BuddyInRange(b, lo, hi) && i < |ls[b.order]| {
      var p := b.Parent();
      MergeStep(ls, live, lo, hi, b, i);
      DeallocKeeps(Remove(ls, b.order, i), live - {b} + {p}, lo, hi, p);
      assert live - {b} + {p} - {p} == live - {b};
    } else {
      BuddyNotFree(ls, live, lo, hi, b);
      PutStep(ls, live, lo, hi, b);
    }
  }

  /** Where `dealloc` stops merging, the buddy is not a free block. */
  lemma BuddyNotFree(ls: Lists, live: set<Block>, lo: nat, hi: nat, b: Block)
    requires Inv(ls, live, lo, hi) && b in live
    requires hi < WORD && NoOversize(lo, hi, |ls|)
    requires b.order + 1 < |ls| && BuddyInRange(b, lo, hi) ==>
      IndexOf(ls[b.order], b.Buddy().addr) == |ls[b.order]|
    ensures b.Buddy() !in FreeSet(ls)
  {
    if b.Buddy() in FreeSet(ls) {
      FreeBuddyFound(ls, live, lo, hi, b);
      assert false;
    }
  }

  /** A free buddy lies in the heap, below the top order, and is found. */
  lemma FreeBuddyFound(ls: Lists, live: set<Block>, lo: nat, hi: nat, b: Block)
    requires Inv(ls, live, lo, hi) && b in live && b.Buddy() in FreeSet(ls)
    requires hi < WORD && NoOversize(lo, hi, |ls|)
    ensures b.order + 1 < |ls| && BuddyInRange(b, lo, hi)
    ensures IndexOf(ls[b.order], b.Buddy().addr) < |ls[b.order]|
  {
    assert b.Buddy() in FreeSet(ls) + live && b in FreeSet(ls) + live;
    BuddyParent(b);
    HalvesAligned(b.Parent());
    assert Fits(Block(b.Parent().addr, b.order + 1), lo, hi);
  }

  // ----- runs

  datatype Op = AllocOp(layout: Layout) | DeallocOp(addr: nat, layout: Layout)

  datatype State = State(free: Lists, live: set<Block>)

  /** A caller frees only what it holds, under a layout of the same order. */
  predicate Legal(s: State, op: Op)
  {
    match op
    case AllocOp(_) => true
    case DeallocOp(p, y) => Block(p, y.Order()) in s.live && y.Order() < |s.free|
  }

  function Step(s: State, op: Op, lo: nat, hi: nat): State
    requires Legal(s, op)
  {
    match op
    case AllocOp(y) =>
      var (r, free) := Alloc(s.free, y.Order());
      State(free, if r.Some? then s.live + {Block(r.value, y.Order())} else s.live)
    case DeallocOp(p, y) =>
      var b := Block(p, y.Order());
      State(Dealloc(s.free, b, lo, hi), s.live - {b})
  }

  /** `s` is reached from a freshly initialised heap of `n` orders by `ops`. */
  ghost predicate Reaches(lo: nat, hi: nat, n: nat, ops: seq<Op>, s: State)
    requires 0 < lo && hi < WORD
    requires forall b :: b in GreedySet(lo, hi) ==> b.order < n
  {
    if ops == [] then
      s == State(InitLists(lo, hi, EmptyLists(n)), {})
    else
      var m := |ops| - 1;
      exists t :: Reaches(lo, hi, n, ops[..m], t) && Legal(t, ops[m]) && s == Step(t, ops[m], lo, hi)
  }

  ghost predicate Geometry(lo: nat, hi: nat, n: nat)
  {
    0 < lo && hi < WORD && lo % 8 == 0 && hi % 8 == 0 && n >= MIN_ORDER && NoOversize(lo, hi, n)
  }

  lemma StepKeeps(s: State, op: Op, lo: nat, hi: nat)
    requires Geometry(lo, hi, |s.free|) && Inv(s.free, s.live, lo, hi) && Legal(s, op)
    ensures var t := Step(s, op, lo, hi); |t.free| == |s.free| && Inv(t.free, t.live, lo, hi)
  {
    match op {
      case AllocOp(y) =>
        MinOrderOfLayout(y);
        AllocKeeps(s.free, s.live, lo, hi, y.Order());
      case DeallocOp(p, y) =>
        DeallocKeeps(s.free, s.live, lo, hi, Block(p, y.Order()));
    }
  }

  lemma MinOrderOfLayout(y: Layout)
    ensures MIN_ORDER <= y.Order()
  {
    assert Block(0, y.Order()).Aligned();
    OrderServesLayout(y, Block(0, y.Order()));
  }

  /** Every reachable state tiles the heap exactly and has no two free buddies. */
  lemma {:induction false} EveryRunKeepsInv(lo: nat, hi: nat, n: nat, ops: seq<Op>, s: State)
    requires Geometry(lo, hi, n)
    requires forall b :: b in GreedySet(lo, hi) ==> b.order < n
    requires Reaches(lo, hi, n, ops, s)
    ensures |s.free| == n && Inv(s.free, s.live, lo, hi)
    decreases |ops|
  {
    if ops == [] {
      InitKeeps(lo, hi, n);
    } else {
      var m := |ops| - 1;
      var t :| Reaches(lo, hi, n, ops[..m], t) && Legal(t, ops[m]) && s == Step(t, ops[m], lo, hi);
      EveryRunKeepsInv(lo, hi, n, ops[..m], t);
      StepKeeps(t, ops[m], lo, hi);
    }
  }

  /** Whatever the order of operations, once everything is freed the free blocks are exactly those
      that `init` made. */
  lemma AllFreedIsCanonical(lo: nat, hi: nat, n: nat, ops: seq<Op>, s: State)
    requires Geometry(lo, hi, n)
    requires forall b :: b in GreedySet(lo, hi) ==> b.order < n
    requires Reaches(lo, hi, n, ops, s) && s.live == {}
    ensures FreeSet(s.free) == GreedySet(lo, hi)
  {
    EveryRunKeepsInv(lo, hi, n, ops, s);
    assert FreeSet(s.free) + {} == FreeSet(s.free);
    GreedyIsCanonical(lo, hi);
    CanonicalTilingIsUnique(FreeSet(s.free), GreedySet(lo, hi), lo, hi);
  }
}
