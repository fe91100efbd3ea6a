/** The buddy heap as the platform binary runs it: list heads in an array, link words written into
the free memory itself.  Each method is proved against the list functions of `BuddyLists`, and says
which words of memory it leaves alone.
 */
module BuddyHeap {
  import opened Bits
  import opened Sequences
  import opened BuddyBlocks
  import opened BuddyLists
  import opened Wrappers

  /** The cell that `prev` points at during a scan: a list head, or the link word of a free block. */
  datatype Cell = Head | Link(addr: nat)

  /** Element `i` of a list of addresses, null past its end. */
  function At(l: seq<nat>, i: nat): nat { if i < |l| then l[i] else 0 }

  /** Starting at `head`, the link words in `mem` run through exactly the addresses `l`. */
  predicate Chain(mem: map<nat, nat>, head: nat, l: seq<nat>)
  {
    && head == At(l, 0)
    && forall i :: 0 <= i < |l| ==> l[i] != 0 && l[i] in mem && mem[l[i]] == At(l, i + 1)
  }

  predicate Absent(ls: Lists, x: nat)
  {
    forall o, i :: 0 <= o < |ls| && 0 <= i < |ls[o]| ==> ls[o][i] != x
  }

  predicate Below(ls: Lists, x: nat)
  {
    forall o, i :: 0 <= o < |ls| && 0 <= i < |ls[o]| ==> ls[o][i] < x
  }

  /** No address is on two lists. */
  predicate Distinct(ls: Lists)
  {
    forall o, i, q, j ::
      (0 <= o < |ls| && 0 <= i < |ls[o]| && 0 <= q < |ls| && 0 <= j < |ls[q]| &&
      (o != q || i != j)) ==> ls[o][i] != ls[q][j]
  }

  /** Words outside the heap and words inside `kept` read the same before and after. */
  ghost predicate Undisturbed(before: map<nat, nat>, after: map<nat, nat>, kept: set<Block>, lo: nat, hi: nat)
  {
    && before.Keys == after.Keys
    && forall a :: a in before && (a < lo || hi <= a || Covered(kept, a)) ==> after[a] == before[a]
  }

  /** Every word outside `b` reads the same before and after. */
  ghost predicate OnlyInside(before: map<nat, nat>, after: map<nat, nat>, b: Block)
  {
    && before.Keys == after.Keys
    && forall a :: a in before && !b.Contains(a) ==> after[a] == before[a]
  }

  lemma InvDistinct(ls: Lists, live: set<Block>, lo: nat, hi: nat)
    requires Inv(ls, live, lo, hi)
    ensures Distinct(ls)
  {
    forall o, i, q, j | 0 <= o < |ls| && 0 <= i < |ls[o]| && 0 <= q < |ls| && 0 <= j < |ls[q]| &&
      (o != q || i != j)
      ensures ls[o][i] != ls[q][j]
    {
      if o != q {
        var b, c := Block(ls[o][i], o), Block(ls[q][j], q);
        assert b in FreeSet(ls) + live && c in FreeSet(ls) + live;
        assert b.Apart(c);
      }
    }
  }

  /** An address inside a live block is on no free list. */
  lemma LiveIsAbsent(ls: Lists, live: set<Block>, lo: nat, hi: nat, b: Block, x: nat)
    requires Inv(ls, live, lo, hi) && b in live && b.Contains(x)
    ensures Absent(ls, x)
  {
    forall o, i | 0 <= o < |ls| && 0 <= i < |ls[o]| ensures ls[o][i] != x {
      var c := Block(ls[o][i], o);
      assert c in FreeSet(ls);
      assert c in FreeSet(ls) + live && b in FreeSet(ls) + live && c != b;
      assert c.Apart(b);
    }
  }

  /** Memory that is free is not in a live block, and the other way round. */
  lemma FreeOrLive(ls: Lists, live: set<Block>, lo: nat, hi: nat, x: int)
    requires Inv(ls, live, lo, hi)
    ensures Covered(FreeSet(ls), x) ==> lo <= x < hi && !Covered(live, x)
  {
    var all := FreeSet(ls) + live;
    if b :| b in FreeSet(ls) && b.Contains(x) {
      assert b in all;
      forall c | c in live ensures !c.Contains(x) {
        assert c in all && c != b && c.Apart(b);
      }
    }
  }

  /** A kept word is not in the block being returned. */
  lemma KeptIsNotFreed(ls: Lists, live: set<Block>, lo: nat, hi: nat, b: Block, x: int)
    requires Inv(ls, live, lo, hi) && b in live
    requires x < lo || hi <= x || Covered(live - {b}, x)
    ensures !b.Contains(x)
  {
    var all := FreeSet(ls) + live;
    assert b in all;
    if c :| c in live - {b} && c.Contains(x) {
      assert c in all && c.Apart(b);
    }
  }

  lemma ListedIsCovered(ls: Lists, o: nat, x: nat)
    requires o < |ls| && x in ls[o]
    ensures Covered(FreeSet(ls), x)
  {
    var i :| 0 <= i < |ls[o]| && ls[o][i] == x;
    assert Block(ls[o][i], o) in FreeSet(ls) && Block(ls[o][i], o).Contains(x);
  }

  lemma ListedAreCovered(ls: Lists, o: nat, ls0: Lists)
    requires o < |ls| && FreeSet(ls) <= FreeSet(ls0)
    ensures forall x :: x in ls[o] ==> Covered(FreeSet(ls0), x)
  {
    forall x | x in ls[o] ensures Covered(FreeSet(ls0), x) { ListedIsCovered(ls, o, x); }
  }

  lemma RemoveShrinks(ls: Lists, live: set<Block>, lo: nat, hi: nat, o: nat, i: nat)
    requires Inv(ls, live, lo, hi) && o < |ls| && i < |ls[o]|
    ensures FreeSet(Remove(ls, o, i)) <= FreeSet(ls)
  {
    FreeSetOfRemove(ls, o, i);
  }

  lemma ListedIsFree(ls: Lists, o: nat, i: nat)
    requires o < |ls| && i < |ls[o]|
    ensures Block(ls[o][i], o) in FreeSet(ls)
  {
  }

  lemma HeldOrder(ls: Lists, live: set<Block>, lo: nat, hi: nat, b: Block)
    requires Inv(ls, live, lo, hi) && b in live
    ensures b.order < |ls| && b.Aligned() && MIN_ORDER <= b.order && lo <= b.addr && b.End() <= hi
  {
    assert b in FreeSet(ls) + live;
  }

  lemma RemoveOfPush(ls: Lists, o: nat, p: nat)
    requires o < |ls|
    ensures Remove(BuddyLists.Push(ls, o, p), o, 0) == ls
  {
    var l := [p] + ls[o];
    assert l[..0] + l[1..] == ls[o];
  }

  lemma PushOfRemove(ls: Lists, o: nat)
    requires o < |ls| && ls[o] != []
    ensures BuddyLists.Push(Remove(ls, o, 0), o, ls[o][0]) == ls
  {
    assert [ls[o][0]] + (ls[o][..0] + ls[o][1..]) == ls[o];
  }

  lemma FirstIs(ls: Lists, so: nat, k: nat)
    requires so <= k < |ls| && ls[k] != [] && forall j :: so <= j < k ==> ls[j] == []
    ensures FirstNonEmpty(ls, so) == k
  {
  }

  lemma IndexIs(l: seq<nat>, x: nat, i: nat)
    requires i <= |l| && (i < |l| ==> l[i] == x) && forall j :: 0 <= j < i ==> l[j] != x
    ensures IndexOf(l, x) == i
  {
  }

  lemma RoundToWord(x: nat)
    requires x < WORD
    ensures And(x, Not(8) + 1) == x - x % 8
  {
    WordIsPow2();
    RoundDownMask(x, 3);
    assert Not(8) + 1 == Not(Pow2(3) - 1);
  }

  /** The size `init` computes is the size of the block it files. */
  lemma MinOfPowers(c: nat, hi: nat)
    requires 0 < c < hi < WORD
    ensures Min(And(c, Not(c) + 1), Pow2(HighestBit(hi - c))) == GreedyBlock(c, hi).Size()
  {
    Lowbit(c);
    var t, h := TrailingZeros(c), HighestBit(hi - c);
    TrailingZerosOfPow2(t);
    TrailingZerosOfPow2(h);
  }

  lemma ChainFrame(mem: map<nat, nat>, x: nat, v: nat, head: nat, l: seq<nat>)
    requires Chain(mem, head, l) && x !in l
    ensures Chain(mem[x := v], head, l)
  {
  }

  lemma ChainPush(mem: map<nat, nat>, p: nat, head: nat, l: seq<nat>)
    requires Chain(mem, head, l) && p !in l && p != 0 && p in mem
    ensures Chain(mem[p := head], p, [p] + l)
  {
    var m, k := mem[p := head], [p] + l;
    forall i | 0 <= i < |k| ensures k[i] != 0 && k[i] in m && m[k[i]] == At(k, i + 1) {
      if i > 0 {
        assert k[i] == l[i - 1];
        assert At(k, i + 1) == At(l, i);
      }
    }
  }

  lemma ChainUnlinkHead(mem: map<nat, nat>, head: nat, l: seq<nat>)
    requires Chain(mem, head, l) && l != []
    ensures Chain(mem, mem[head], l[..0] + l[1..])
  {
    var k := l[..0] + l[1..];
    assert k == l[1..];
    forall i | 0 <= i < |k| ensures k[i] != 0 && k[i] in mem && mem[k[i]] == At(k, i + 1) {
      assert k[i] == l[i + 1];
      assert At(k, i + 1) == At(l, i + 2);
    }
  }

  lemma ChainLinks(mem: map<nat, nat>, head: nat, l: seq<nat>)
    requires Chain(mem, head, l)
    ensures head == At(l, 0) && forall i :: 0 <= i < |l| ==> l[i] != 0 && l[i] in mem && mem[l[i]] == At(l, i + 1)
  {
  }

  lemma ChainUnlinkMiddle(mem: map<nat, nat>, head: nat, l: seq<nat>, i: nat)
    requires Chain(mem, head, l) && 0 < i < |l| && NoDup(l)
    ensures l[i - 1] in mem && l[i] in mem
    ensures Chain(mem[l[i - 1] := mem[l[i]]], head, l[..i] + l[i + 1..])
  {
    var m, k := mem[l[i - 1] := mem[l[i]]], l[..i] + l[i + 1..];
    SkippedAt(l, i, 0);
    hide NoDup;
    forall j | 0 <= j < |k| ensures k[j] != 0 && k[j] in m && m[k[j]] == At(k, j + 1) {
      SkippedAt(l, i, j);
      SkippedAt(l, i, j + 1);
      SkippedLink(mem, head, l, i, if j < i then j else j + 1);
    }
  }

  lemma SkippedAt(l: seq<nat>, i: nat, j: nat)
    requires i < |l|
    ensures At(l[..i] + l[i + 1..], j) == At(l, if j < i then j else j + 1)
  {
  }

  /** Once the predecessor of position `i` skips it, the other links are as they were. */
  lemma SkippedLink(mem: map<nat, nat>, head: nat, l: seq<nat>, i: nat, k: nat)
    requires Chain(mem, head, l) && 0 < i < |l| && NoDup(l) && k < |l|
    ensures l[i] in mem && l[k] != 0 && l[k] in mem
    ensures mem[l[i - 1] := mem[l[i]]][l[k]] == if k == i - 1 then At(l, i + 1) else At(l, k + 1)
  {
    hide At;
    assert l[k] == l[i - 1] <==> k == i - 1;
    assert mem[l[i]] == At(l, i + 1) && mem[l[k]] == At(l, k + 1);
    hide Chain, NoDup;
  }

  class Heap {
    const freeList: array<nat>  // the head of each list, 0 for null
    var start: nat
    var end: nat
    var mem: map<nat, nat>      // the words of memory, by address
    ghost var lists: Lists      // the addresses on each list, head first
    ghost var live: set<Block>  // the blocks handed out and not yet returned

    /** The intrusive lists are finite, null-terminated and hold exactly `lists`. */
    ghost predicate Linked()
      reads this, freeList
    {
      && freeList.Length == |lists|
      && forall o :: 0 <= o < |lists| ==> Chain(mem, freeList[o], lists[o])
    }

    /** Every word of the heap is backed by memory. */
    ghost predicate Backed()
      reads this
    {
      forall a :: start <= a < end && a % 8 == 0 ==> a in mem
    }

    ghost predicate Valid()
      reads this, freeList
    {
      Linked() && Backed() && Geometry(start, end, |lists|) && Inv(lists, live, start, end)
    }

    constructor (order: nat, memory: map<nat, nat>)
      ensures Linked() && lists == EmptyLists(order) && live == {} && mem == memory
      ensures fresh(freeList)
    {
      freeList := new nat[order](_ => 0);
      start, end := 0, 0;
      mem := memory;
      lists := EmptyLists(order);
      live := {};
    }

    method Push(o: nat, p: nat)
      requires Linked() && o < |lists| && Absent(lists, p) && p != 0 && p in mem
      modifies this`mem, this`lists, freeList
      ensures Linked() && lists == BuddyLists.Push(old(lists), o, p)
      ensures mem == old(mem)[p := old(freeList[o])]
    {
      ghost var before := mem;
      mem := mem[p := freeList[o]];
      ChainPush(before, p, freeList[o], lists[o]);
      forall q | 0 <= q < |lists| && q != o ensures Chain(mem, freeList[q], lists[q]) {
        ChainFrame(before, p, freeList[o], freeList[q], lists[q]);
      }
      freeList[o] := p;
      lists := BuddyLists.Push(lists, o, p);
    }

    method Pop(o: nat) returns (r: Option<nat>)
      requires Linked() && o < |lists|
      modifies this`lists, freeList
      ensures Linked()
      ensures r.None? <==> old(lists[o]) == []
      ensures r.None? ==> lists == old(lists)
      ensures r.Some? ==> r.value == old(lists[o][0]) && lists == Remove(old(lists), o, 0)
    {
      var head := freeList[o];
      assert Chain(mem, freeList[o], lists[o]);
      if head == 0 {
        r := None;
      } else {
        ChainUnlinkHead(mem, head, lists[o]);
        freeList[o] := mem[head];
        lists := Remove(lists, o, 0);
        r := Some(head);
      }
    }

    /** Rounds the range to whole words and carves it into blocks. */
    method Init(from: nat, to: nat)
      requires Linked() && lists == EmptyLists(freeList.Length) && live == {} && freeList.Length >= MIN_ORDER
      requires 0 < from && from + 7 < WORD && to + 8 < WORD
      requires forall a :: from <= a < to && a % 8 == 0 ==> a in mem
      requires NoOversize(from + 7 - (from + 7) % 8, to - to % 8, freeList.Length)
      modifies this, freeList
      ensures Valid() && live == {}
      ensures start == from + 7 - (from + 7) % 8 && end == to - to % 8
      ensures FreeSet(lists) == GreedySet(start, end)
      ensures Undisturbed(old(mem), mem, {}, start, end)
    {
      hide Inv, NoOversize, FreeSet, Chain, And, Not;
      RoundToWord(from + 7);
      RoundToWord(to);
      start := And(from + 7, Not(8) + 1);
      end := And(to, Not(8) + 1);
      CarveAll();
    }

    /** The loop of `init`, over a range of whole words. */
    method CarveAll()
      requires Linked() && Backed() && lists == EmptyLists(|lists|) && Geometry(start, end, |lists|)
      modifies this`mem, this`lists, freeList
      ensures Linked() && Backed() && |lists| == |old(lists)| && Inv(lists, {}, start, end)
      ensures FreeSet(lists) == GreedySet(start, end)
      ensures Undisturbed(old(mem), mem, {}, start, end)
    {
      hide Inv, NoOversize, FreeSet, Chain;
      InitKeeps(start, end, |lists|);
      var current := start;
      while current + 8 <= end
        invariant Linked() && Backed()
        invariant start <= current && current % 8 == 0
        invariant Below(lists, current)
        invariant forall b :: b in GreedySet(current, end) ==> b.order < |lists|
        invariant InitLists(current, end, lists) == InitLists(start, end, EmptyLists(|lists|))
        invariant |lists| == |old(lists)|
        invariant Undisturbed(old(mem), mem, {}, start, end)
        decreases end - current
      {
        current := CarveOnce(current);
      }
    }

    /** One turn of the carving loop. */
    method CarveOnce(current: nat) returns (next: nat)
      requires Linked() && Backed() && start <= current && 0 < current && current % 8 == 0
      requires current + 8 <= end < WORD && forall b :: b in GreedySet(current, end) ==> b.order < |lists|
      requires Below(lists, current)
      modifies this`mem, this`lists, freeList
      ensures Linked() && Backed() && next == GreedyBlock(current, end).End() && next % 8 == 0 && current < next
      ensures lists == BuddyLists.Push(old(lists), GreedyBlock(current, end).order, current)
      ensures Below(lists, next)
      ensures mem.Keys == old(mem).Keys
      ensures forall a :: a in mem && a != current ==> mem[a] == old(mem)[a]
    {
      ghost var b := NextCarve(current, end);
      var lowbit := And(current, Not(current) + 1);
      var size := Min(lowbit, Pow2(HighestBit(end - current)));
      Lowbit(current);
      MinOfPowers(current, end);
      Push(TrailingZeros(size), current);
      next := current + size;
    }

    method Alloc(layout: Layout) returns (r: Option<nat>)
      requires Valid()
      modifies this`mem, this`lists, this`live, freeList
      ensures Valid()
      ensures (r, lists) == BuddyLists.Alloc(old(lists), layout.Order())
      ensures r.None? ==> live == old(live) && mem == old(mem)
      ensures r.Some? ==> live == old(live) + {Block(r.value, layout.Order())}
      ensures Undisturbed(old(mem), mem, old(live), start, end)
    {
      hide Inv, NoOversize, FreeSet;
      var size := Pow2(CeilLog2(Max(Max(layout.size, layout.Align()), 8)));
      var so := TrailingZeros(size);
      MinOrderOfLayout(layout);
      var order := so;
      while order < freeList.Length
        invariant so <= order
        invariant forall j :: so <= j < order && j < |lists| ==> lists[j] == []
      {
        assert Chain(mem, freeList[order], lists[order]);
        if freeList[order] != 0 {
          AllocKeeps(lists, live, start, end, so);
          FirstIs(lists, so, order);
          r := SplitAndPop(order, so);
          live := live + {Block(r.value, so)};
          return;
        }
        order := order + 1;
      }
      r := None;
    }

    /** The inner loop of `alloc`: halve the first block of order `k` down to order `so`. */
    method SplitAndPop(k: nat, so: nat) returns (r: Option<nat>)
      requires Valid() && MIN_ORDER <= so <= k < |lists| && lists[k] != []
      requires forall j :: so <= j < k ==> lists[j] == []
      modifies this`mem, this`lists, freeList
      ensures Linked() && Backed()
      ensures r == Some(old(lists)[k][0])
      ensures lists == SplitDown(Remove(old(lists), k, 0), r.value, k, so)
      ensures Undisturbed(old(mem), mem, live, start, end)
    {
      hide Inv, NoOversize, FreeSet, Chain, Pow2, Geometry;
      ghost var whole := Block(lists[k][0], k);
      ghost var base := Remove(lists, k, 0);
      TakeStep(lists, live, start, end, k, 0);
      ListedIsFree(lists, k, 0);
      PushOfRemove(lists, k);
      var j := k;
      while j > so
        invariant so <= j <= k && Linked()
        invariant lists == BuddyLists.Push(SplitDown(base, whole.addr, k, j), j, whole.addr)
        invariant OnlyInside(old(mem), mem, whole)
      {
        SplitDownKeeps(base, live + {whole}, start, end, whole, j);
        SplitOnce(j, SplitDown(base, whole.addr, k, j), live + {whole} - {whole} + {Block(whole.addr, j)}, whole);
        j := j - 1;
      }
      RemoveOfPush(SplitDown(base, whole.addr, k, so), so, whole.addr);
      r := Pop(so);
      forall a | a in mem && (a < start || end <= a || Covered(live, a)) ensures mem[a] == old(mem)[a] {
        FreeOrLive(old(lists), live, start, end, a);
      }
    }

    /** One turn of the split loop: pop a block of order `j`, push its two halves. */
    method SplitOnce(j: nat, ghost rest: Lists, ghost held: set<Block>, ghost whole: Block)
      requires Linked() && Backed() && Geometry(start, end, |rest|) && Inv(rest, held, start, end)
      requires Block(whole.addr, j) in held && MIN_ORDER < j <= whole.order && j < |rest|
      requires lists == BuddyLists.Push(rest, j, whole.addr)
      modifies this`mem, this`lists, freeList
      ensures Linked()
      ensures lists == BuddyLists.Push(BuddyLists.Push(rest, j - 1, whole.addr + Pow2(j - 1)), j - 1, whole.addr)
      ensures OnlyInside(old(mem), mem, whole)
    {
      hide Inv, NoOversize, FreeSet, Chain;
      RemoveOfPush(rest, j, whole.addr);
      var popped := Pop(j);
      var block := popped.value;
      var buddy := block + Pow2(j - 1);
      SplitPointers(rest, held, whole, j);
      Push(j - 1, buddy);
      Push(j - 1, block);
    }

    /** Both halves of a block in hand are memory that no list holds. */
    lemma SplitPointers(rest: Lists, held: set<Block>, whole: Block, j: nat)
      requires Backed() && Inv(rest, held, start, end) && start > 0 && start % 8 == 0
      requires Block(whole.addr, j) in held && MIN_ORDER < j <= whole.order
      ensures var p := whole.addr; var u := p + Pow2(j - 1);
        && p != 0 && p in mem && u in mem && p != u && whole.Contains(p) && whole.Contains(u)
        && Absent(rest, p) && Absent(rest, u)
    {
      hide Inv, FreeSet;
      var b := Block(whole.addr, j);
      HeldOrder(rest, held, start, end, b);
      HalvesAligned(b);
      Pow2Monotone(j, whole.order);
      LiveIsAbsent(rest, held, start, end, b, b.addr);
      LiveIsAbsent(rest, held, start, end, b, b.Upper().addr);
      WordAddress(b.Lower());
      WordAddress(b.Upper());
    }

    /** The inner scan of `dealloc`: take `target` off list `o` if it is there. */
    method Unlink(o: nat, target: nat) returns (found: bool)
      requires Linked() && o < |lists| && Distinct(lists)
      modifies this`mem, this`lists, freeList
      ensures Linked()
      ensures found <==> IndexOf(old(lists[o]), target) < |old(lists[o])|
      ensures found ==> lists == Remove(old(lists), o, IndexOf(old(lists[o]), target))
      ensures !found ==> lists == old(lists) && mem == old(mem)
      ensures mem.Keys == old(mem).Keys
      ensures forall a :: a in mem && a !in old(lists[o]) ==> mem[a] == old(mem)[a]
    {
      ghost var l := lists[o];
      ghost var i := 0;
      assert Chain(mem, freeList[o], l);
      ChainLinks(mem, freeList[o], l);
      hide Chain, Distinct, Remove;
      var scan := freeList[o];
      var prev := Head;
      while scan != 0
        invariant i <= |l| && scan == At(l, i)
        invariant prev == if i == 0 then Head else Link(l[i - 1])
        invariant forall j :: 0 <= j < i ==> l[j] != target
        decreases |l| - i
      {
        if scan == target {
          IndexIs(l, target, i);
          UnlinkAt(o, i, prev, scan);
          return true;
        }
        prev := Link(scan);
        scan := mem[scan];
        i := i + 1;
      }
      IndexIs(l, target, |l|);
      return false;
    }

    /** `*prev = *scan` */
    method UnlinkAt(o: nat, ghost i: nat, prev: Cell, scan: nat)
      requires Linked() && o < |lists| && Distinct(lists)
      requires i < |lists[o]| && scan == lists[o][i]
      requires prev == if i == 0 then Head else Link(lists[o][i - 1])
      modifies this`mem, this`lists, freeList
      ensures Linked() && lists == Remove(old(lists), o, i)
      ensures mem.Keys == old(mem).Keys
      ensures forall a :: a in mem && a !in old(lists[o]) ==> mem[a] == old(mem)[a]
    {
      ghost var l := lists[o];
      assert Chain(mem, freeList[o], l);
      match prev {
        case Head =>
          ChainUnlinkHead(mem, scan, l);
          freeList[o] := mem[scan];
        case Link(p) =>
          ChainUnlinkMiddle(mem, freeList[o], l, i);
          forall q | 0 <= q < |lists| && q != o ensures Chain(mem[p := mem[scan]], freeList[q], lists[q]) {
            ChainFrame(mem, p, mem[scan], freeList[q], lists[q]);
          }
          mem := mem[p := mem[scan]];
      }
      lists := Remove(lists, o, i);
    }

    method Dealloc(ptr: nat, layout: Layout)
      requires Valid() && Block(ptr, layout.Order()) in live
      modifies this`mem, this`lists, this`live, freeList
      ensures Valid()
      ensures lists == BuddyLists.Dealloc(old(lists), Block(ptr, layout.Order()), start, end)
      ensures live == old(live) - {Block(ptr, layout.Order())}
      ensures Undisturbed(old(mem), mem, live, start, end)
    {
      hide Inv, NoOversize, FreeSet;
      var size := Pow2(CeilLog2(Max(Max(layout.size, layout.Align()), 8)));
      var order := TrailingZeros(size);
      ghost var b := Block(ptr, order);
      live := live - {b};
      assert live + {b} == old(live) && live + {b} - {b} == live;
      HeldOrder(lists, live + {b}, start, end, b);
      DeallocKeeps(lists, live + {b}, start, end, b);
      MergeUp(ptr, order);
      forall a | a in mem && (a < start || end <= a || Covered(live, a)) ensures mem[a] == old(mem)[a] {
        FreeOrLive(old(lists), old(live), start, end, a);
        KeptIsNotFreed(old(lists), old(live), start, end, b, a);
      }
    }

    /** The loop of `dealloc` and the push after it. */
    method MergeUp(ptr: nat, startOrder: nat)
      requires Linked() && Backed() && Geometry(start, end, |lists|) && startOrder < |lists|
      requires Block(ptr, startOrder) !in live && Inv(lists, live + {Block(ptr, startOrder)}, start, end)
      modifies this`mem, this`lists, freeList
      ensures Linked() && lists == BuddyLists.Dealloc(old(lists), Block(ptr, startOrder), start, end)
      ensures Untouched(old(mem), old(lists), Block(ptr, startOrder))
    {
      hide Inv, NoOversize, FreeSet, Chain;
      var current, order := ptr, startOrder;
      ghost var b := Block(ptr, order);
      while order + 1 < freeList.Length
        invariant order < |lists| == |old(lists)| && Linked() && Block(current, order) !in live
        invariant Inv(lists, live + {Block(current, order)}, start, end)
        invariant BuddyLists.Dealloc(lists, Block(current, order), start, end) ==
                  BuddyLists.Dealloc(old(lists), b, start, end)
        invariant FreeSet(lists) <= FreeSet(old(lists))
        invariant current == ptr || Covered(FreeSet(old(lists)), current)
        invariant Untouched(old(mem), old(lists), b)
      {
        var found := MergeOnce(current, order, b, old(mem), old(lists));
        if !found {
          break;
        }
        current := Min(current, Xor(current, Pow2(order)));
        order := order + 1;
      }
      PushFreed(current, order);
    }

    /** One turn of the merge loop: if the buddy lies in the heap and is free, take it off its list. */
    method MergeOnce(current: nat, order: nat, ghost b: Block, ghost mem0: map<nat, nat>, ghost lists0: Lists)
        returns (found: bool)
      requires Linked() && order + 1 < |lists|
      requires Inv(lists, live + {Block(current, order)}, start, end) && Block(current, order) !in live
      requires FreeSet(lists) <= FreeSet(lists0) && Untouched(mem0, lists0, b)
      modifies this`mem, this`lists, freeList
      ensures Linked() && |lists| == |old(lists)| && FreeSet(lists) <= FreeSet(lists0) && Untouched(mem0, lists0, b)
      ensures var held := Block(current, order);
        && (!found ==>
             && lists == old(lists)
             && BuddyLists.Dealloc(lists, held, start, end) == BuddyLists.Push(lists, order, current))
        && (found ==>
             && held.Parent() !in live
             && Inv(lists, live + {held.Parent()}, start, end)
             && BuddyLists.Dealloc(old(lists), held, start, end) ==
                BuddyLists.Dealloc(lists, held.Parent(), start, end)
             && Covered(FreeSet(lists0), held.Buddy().addr))
    {
      hide Inv, FreeSet, Chain;
      ghost var held := Block(current, order);
      ghost var before := lists;
      var buddy := Xor(current, Pow2(order));
      if buddy < start || SaturatingAdd(buddy, Pow2(order)) > end {
        return false;
      }
      InvDistinct(lists, live + {held}, start, end);
      found := Unlink(order, buddy);
      if found {
        ghost var i := IndexOf(before[order], buddy);
        MergeStep(before, live + {held}, start, end, held, i);
        assert live + {held} - {held} + {held.Parent()} == live + {held.Parent()};
        RemoveShrinks(before, live + {held}, start, end, order, i);
        ListedAreCovered(before, order, lists0);
      }
    }

    /** The last line of `dealloc`. */
    method PushFreed(current: nat, order: nat)
      requires Linked() && Backed() && Geometry(start, end, |lists|)
      requires Inv(lists, live + {Block(current, order)}, start, end)
      modifies this`mem, this`lists, freeList
      ensures Linked() && lists == BuddyLists.Push(old(lists), order, current)
      ensures mem.Keys == old(mem).Keys
      ensures forall a :: a in mem && a != current ==> mem[a] == old(mem)[a]
    {
      hide Inv, FreeSet, Chain;
      ghost var held := Block(current, order);
      HeldOrder(lists, live + {held}, start, end, held);
      LiveIsAbsent(lists, live + {held}, start, end, held, current);
      WordAddress(held);
      Push(order, current);
    }

    /** A block of the heap starts at a word of memory. */
    lemma WordAddress(b: Block)
      requires Backed() && b.Aligned() && MIN_ORDER <= b.order && start <= b.addr && b.End() <= end
      ensures b.addr in mem
    {
      WordIsPow2();
      Pow2Divides(3, b.order, b.addr);
    }

    /** Only free memory and the block being returned have been written. */
    ghost predicate Untouched(before: map<nat, nat>, free: Lists, b: Block)
      reads this
    {
      && mem.Keys == before.Keys
      && forall a :: a in mem && !Covered(FreeSet(free), a) && !b.Contains(a) ==> mem[a] == before[a]
    }
  }
}
