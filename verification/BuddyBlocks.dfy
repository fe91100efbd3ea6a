/** The geometry of power-of-two blocks: what the buddy heap's free and live blocks look like as
sets, independent of the lists that store them.
 */
module BuddyBlocks {
  import opened Bits

  const MIN_ORDER: nat := 3  // a block holds at least one pointer

  datatype Block = Block(addr: nat, order: nat)
  {
    function Size(): (n: nat)
      ensures n > 0
    {
      Pow2(order)
    }

    function End(): nat { addr + Size() }

    predicate Aligned() { addr % Size() == 0 }

    predicate Contains(x: int) { addr <= x < End() }

    predicate Inside(c: Block) { c.addr <= addr && End() <= c.End() }

    predicate Apart(c: Block) { End() <= c.addr || c.End() <= addr }

    /** `current ^ (1 << order)` */
    function Buddy(): Block { Block(Xor(addr, Size()), order) }

    /** The block that the two buddies make up: `current.min(buddy)`, one order up. */
    function Parent(): Block { Block(Min(addr, Buddy().addr), order + 1) }

    function Lower(): Block
      requires order > 0
    {
      Block(addr, order - 1)
    }

    function Upper(): Block
      requires order > 0
    {
      Block(addr + Pow2(order - 1), order - 1)
    }
  }

  ghost predicate Covered(s: set<Block>, x: int)
  {
    exists b :: b in s && b.Contains(x)
  }

  /** Every block is aligned, large enough for a link word, and within `[lo, hi)`. */
  ghost predicate InBounds(s: set<Block>, lo: nat, hi: nat)
  {
    forall b :: b in s ==> b.Aligned() && MIN_ORDER <= b.order && lo <= b.addr && b.End() <= hi
  }

  ghost predicate PairwiseApart(s: set<Block>)
  {
    forall b, c :: b in s && c in s && b != c ==> b.Apart(c)
  }

  ghost predicate Covers(s: set<Block>, lo: nat, hi: nat)
  {
    forall x :: lo <= x < hi ==> Covered(s, x)
  }

  /** The blocks partition `[lo, hi)`. */
  ghost predicate Tiles(s: set<Block>, lo: nat, hi: nat)
  {
    InBounds(s, lo, hi) && PairwiseApart(s) && Covers(s, lo, hi)
  }

  ghost predicate NoBuddies(s: set<Block>)
  {
    forall b :: b in s ==> b.Buddy() !in s
  }

  // ----- one block

  /** An aligned block is the set of addresses that agree above its order. */
  lemma AlignedContains(b: Block, x: nat)
    requires b.Aligned()
    ensures b.Contains(x) <==> Shr(x, b.order) == Shr(b.addr, b.order)
  {
    hide Pow2, Shr;
    var p, k := b.Size(), Shr(b.addr, b.order);
    ShrIsDivision(b.addr, b.order);
    ShrIsDivision(x, b.order);
    assert b.addr == k * p;
    if b.Contains(x) {
      DivUnique(x, p, k, x - k * p);
    }
  }

  /** Two aligned blocks that share an address are nested. */
  lemma Nested(b: Block, c: Block, x: nat)
    requires b.Aligned() && c.Aligned() && b.order <= c.order
    requires b.Contains(x) && c.Contains(x)
    ensures b.Inside(c)
  {
    var last := b.End() - 1;
    SameAbove(b, c.order, x, b.addr);
    SameAbove(b, c.order, x, last);
    AlignedContains(c, x);
    AlignedContains(c, b.addr);
    AlignedContains(c, last);
  }

  lemma SameAbove(b: Block, n: nat, x: nat, y: nat)
    requires b.Aligned() && b.order <= n && b.Contains(x) && b.Contains(y)
    ensures Shr(x, n) == Shr(y, n)
  {
    AlignedContains(b, x);
    AlignedContains(b, y);
    ShrAdd(x, b.order, n - b.order);
    ShrAdd(y, b.order, n - b.order);
  }

  lemma HalvesAligned(b: Block)
    requires b.Aligned() && b.order > 0
    ensures b.Lower().Aligned() && b.Upper().Aligned()
    ensures b.Lower().Buddy() == b.Upper() && b.Upper().Buddy() == b.Lower()
    ensures b.Lower().End() == b.Upper().addr && b.Upper().End() == b.End()
  {
    FlipTwice(b.addr, b.order - 1);
  }

  lemma FlipTwice(x: nat, n: nat)
    requires x % Pow2(n + 1) == 0
    ensures x % Pow2(n) == 0 && (x + Pow2(n)) % Pow2(n) == 0
    ensures Xor(x, Pow2(n)) == x + Pow2(n) && Xor(x + Pow2(n), Pow2(n)) == x
  {
    assert Pow2(n + 1) == 2 * Pow2(n);
    FlipEven(x, n, Pow2(n));
  }

  lemma FlipEven(x: nat, n: nat, p: nat)
    requires p == Pow2(n) && x % (2 * p) == 0
    ensures x % p == 0 && (x + p) % p == 0
    ensures Xor(x, p) == x + p && Xor(x + p, p) == x
  {
    hide Pow2, Xor;
    var k := EvenMultiple(x, p);
    FlipLow(x, n, k);
    FlipLow(x + p, n, k + 1);
  }

  lemma EvenMultiple(x: nat, p: nat) returns (k: nat)
    requires p > 0 && x % (2 * p) == 0
    ensures k % 2 == 0 && x == k * p && x + p == (k + 1) * p
    ensures x % p == 0 && (x + p) % p == 0
  {
    var q := x / (2 * p);
    k := 2 * q;
    assert x == (2 * p) * q;
    assert (2 * p) * q == k * p;
    assert (k + 1) * p == k * p + p;
    MultipleMod(k, p);
    MultipleMod(k + 1, p);
  }

  lemma OddMultiple(x: nat, p: nat) returns (k: nat)
    requires p > 0 && x % p == 0
    ensures x == k * p
    ensures k % 2 == 0 ==> x % (2 * p) == 0
    ensures k % 2 == 1 ==> x >= p && (x - p) % (2 * p) == 0
  {
    k := x / p;
    var q := k / 2;
    assert q * (2 * p) == (2 * q) * p;
    assert k % 2 == 1 ==> k * p == (2 * q) * p + p by { assert (2 * q + 1) * p == (2 * q) * p + p; }
    MultipleMod(q, 2 * p);
  }

  /** Flipping digit `n` of a multiple of `2^n` reaches the other half of a multiple of `2^(n+1)`. */
  lemma FlipPair(x: nat, n: nat)
    requires x % Pow2(n) == 0
    ensures
      || (Xor(x, Pow2(n)) == x + Pow2(n) && x % Pow2(n + 1) == 0)
      || (x >= Pow2(n) && Xor(x, Pow2(n)) == x - Pow2(n) && (x - Pow2(n)) % Pow2(n + 1) == 0)
  {
    var k := OddMultiple(x, Pow2(n));
    FlipLow(x, n, k);
  }

  lemma FlipLow(x: nat, n: nat, k: nat)
    requires x == k * Pow2(n)
    ensures k % 2 == 0 ==> Xor(x, Pow2(n)) == x + Pow2(n)
    ensures k % 2 == 1 ==> x >= Pow2(n) && Xor(x, Pow2(n)) == x - Pow2(n)
  {
    XorPow2(x, n);
    BitIsShr(x, n);
    ShrIsDivision(x, n);
    MultipleMod(k, Pow2(n));
  }

  /** A block and its buddy are the two halves of their parent. */
  lemma BuddyParent(b: Block)
    requires b.Aligned()
    ensures b.Buddy() != b && b.Buddy().Aligned() && b.Parent().Aligned()
    ensures b.Buddy().Buddy() == b && b.Buddy().Parent() == b.Parent()
    ensures {b, b.Buddy()} == {b.Parent().Lower(), b.Parent().Upper()}
  {
    FlipPair(b.addr, b.order);
    HalvesAligned(b.Parent());
    assert b == b.Parent().Lower() || b == b.Parent().Upper();
  }

  // ----- canonical tilings

  /** Where no two buddies are both present, any aligned range that is covered at all lies inside
      a single block: a fully free range is one free block, or part of one. */
  lemma {:induction false} CoveredInsideOne(s: set<Block>, lo: nat, hi: nat, a: Block) returns (c: Block)
    requires InBounds(s, lo, hi) && NoBuddies(s)
    requires a.Aligned() && MIN_ORDER <= a.order
    requires forall x :: a.Contains(x) ==> Covered(s, x)
    ensures c in s && a.Inside(c)
    decreases a.order
  {
    if a.order == MIN_ORDER {
      assert a.Contains(a.addr);
      c :| c in s && c.Contains(a.addr);
      Nested(a, c, a.addr);
    } else {
      var l, u := a.Lower(), a.Upper();
      HalvesAligned(a);
      var cl := CoveredInsideOne(s, lo, hi, l);
      var cu := CoveredInsideOne(s, lo, hi, u);
      c := BiggerHalf(a, cl, cu);
    }
  }

  lemma BiggerHalf(a: Block, cl: Block, cu: Block) returns (c: Block)
    requires a.Aligned() && a.order > 0 && cl.Aligned() && cu.Aligned()
    requires a.Lower().Inside(cl) && a.Upper().Inside(cu)
    requires cl.Buddy() != cu
    ensures c == cl || c == cu
    ensures a.Inside(c)
  {
    HalvesAligned(a);
    if cl.order >= a.order {
      Nested(a, cl, a.addr);
      c := cl;
    } else if cu.order >= a.order {
      Nested(a, cu, a.Upper().addr);
      c := cu;
    } else {
      InsideSmall(a.Lower(), cl);
      InsideSmall(a.Upper(), cu);
      assert false;
    }
  }

  /** A block inside another of no larger order is that block. */
  lemma InsideSmall(b: Block, c: Block)
    requires b.Inside(c) && c.order <= b.order
    ensures b == c
  {
    if c.order < b.order {
      Pow2Strict(c.order, b.order);
    }
  }

  /** `[lo, hi)` has at most one tiling without a pair of buddies. */
  lemma CanonicalTilingIsUnique(s: set<Block>, t: set<Block>, lo: nat, hi: nat)
    requires Tiles(s, lo, hi) && NoBuddies(s)
    requires Tiles(t, lo, hi) && NoBuddies(t)
    ensures s == t
  {
    forall b | b in s ensures b in t { TileInOther(s, t, lo, hi, b); }
    forall b | b in t ensures b in s { TileInOther(t, s, lo, hi, b); }
  }

  lemma TileInOther(s: set<Block>, t: set<Block>, lo: nat, hi: nat, b: Block)
    requires Tiles(s, lo, hi) && NoBuddies(s)
    requires Tiles(t, lo, hi) && NoBuddies(t)
    requires b in s
    ensures b in t
  {
    var c := CoveredInsideOne(t, lo, hi, b);
    var d := CoveredInsideOne(s, lo, hi, c);
    assert !b.Apart(d);
    assert b == d;
    assert b.Inside(c) && c.Inside(b);
    InsideBoth(b, c);
  }

  lemma InsideBoth(b: Block, c: Block)
    requires b.Inside(c) && c.Inside(b)
    ensures b == c
  {
    if b.order <= c.order {
      InsideSmall(c, b);
    } else {
      InsideSmall(b, c);
    }
  }

  // ----- tilings under replacement

  /** Replacing a block by its two halves keeps a tiling. */
  lemma SplitTiles(s: set<Block>, b: Block, l: Block, u: Block, lo: nat, hi: nat)
    requires Tiles(s, lo, hi) && b in s && b.order > MIN_ORDER
    requires l == b.Lower() && u == b.Upper()
    ensures Tiles(s - {b} + {l, u}, lo, hi)
    ensures l !in s && u !in s
  {
    HalvesAligned(b);
    RefineTiles(s, {b}, {l, u}, lo, hi);
    NotAlsoInside(s, b, l);
    NotAlsoInside(s, b, u);
  }

  lemma NotAlsoInside(s: set<Block>, b: Block, h: Block)
    requires PairwiseApart(s) && b in s && h != b
    requires h.Inside(b) || b.Inside(h)
    ensures h !in s
  {
    assert !h.Apart(b);
  }

  /** Replacing two buddies by their parent keeps a tiling. */
  lemma MergeTiles(s: set<Block>, b: Block, c: Block, p: Block, lo: nat, hi: nat)
    requires Tiles(s, lo, hi) && b in s && c in s
    requires c == b.Buddy() && p == b.Parent()
    ensures Tiles(s - {b, c} + {p}, lo, hi)
    ensures p !in s
  {
    BuddyParent(b);
    HalvesAligned(p);
    var l, u := p.Lower(), p.Upper();
    assert l in {b, c} && u in {b, c};
    assert b in {l, u} && c in {l, u};
    RefineTiles(s, {b, c}, {p}, lo, hi);
    NotAlsoInside(s, b, p);
  }

  /** Part of a tiling may be exchanged for other blocks over the same addresses. */
  lemma RefineTiles(s: set<Block>, old_: set<Block>, new_: set<Block>, lo: nat, hi: nat)
    requires Tiles(s, lo, hi) && old_ <= s
    requires InBounds(new_, lo, hi) && PairwiseApart(new_)
    requires forall n, x :: n in new_ && n.Contains(x) ==> Covered(old_, x)
    requires forall o, x :: o in old_ && o.Contains(x) ==> Covered(new_, x)
    ensures Tiles(s - old_ + new_, lo, hi)
  {
    var t := s - old_ + new_;
    forall x | lo <= x < hi ensures Covered(t, x) {
      RefineCovers(s, old_, new_, x);
    }
    forall c, n | c in s - old_ && n in new_ ensures c.Apart(n) {
      RefineApart(s, old_, c, n);
    }
    assert InBounds(t, lo, hi);
    assert PairwiseApart(t);
  }

  lemma RefineCovers(s: set<Block>, old_: set<Block>, new_: set<Block>, x: int)
    requires Covered(s, x)
    requires Covered(old_, x) ==> Covered(new_, x)
    ensures Covered(s - old_ + new_, x)
  {
    var t := s - old_ + new_;
    var c :| c in s && c.Contains(x);
    if c in old_ {
      var n :| n in new_ && n.Contains(x);
      assert n in t;
    } else {
      assert c in t;
    }
  }

  lemma RefineApart(s: set<Block>, old_: set<Block>, c: Block, n: Block)
    requires PairwiseApart(s) && old_ <= s && c in s - old_
    requires forall x :: n.Contains(x) ==> Covered(old_, x)
    ensures c.Apart(n)
  {
    if !c.Apart(n) {
      var x := Max(c.addr, n.addr);
      assert c.Contains(x) && n.Contains(x);
      assert false;
    }
  }
}
