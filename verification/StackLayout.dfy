/** The initial user stack: the image the loader lays out, and how a program reads it back, as in
section 3.4.1 of the System V ABI AMD64 Architecture Processor Supplement.
 */
module StackLayout {
  import opened Bits
  import opened Sequences
  import opened Wrappers

  type Bytes = seq<nat>

  const AT_RANDOM: nat := 25
  const AT_EXECFN: nat := 31

  /** The sixteen bytes that `AT_RANDOM` points at. */
  const RANDOM_BYTES: Bytes :=
    [0x57, 0x68, 0x75, 0x73, 0x65, 0x2d, 0x72, 0x76, 0x2d, 0x61, 0x75, 0x78, 0x76, 0x2d, 0x31, 0x36]

  // ----- little-endian words

  function Pow256(n: nat): nat { if n == 0 then 1 else 256 * Pow256(n - 1) }

  /** The `n` low bytes of `v`, least significant first. */
  function LittleEndian(v: nat, n: nat): (s: Bytes)
    ensures |s| == n
  {
    if n == 0 then [] else [v % 256] + LittleEndian(v / 256, n - 1)
  }

  function FromLittleEndian(s: Bytes): nat
  {
    if s == [] then 0 else s[0] + 256 * FromLittleEndian(s[1..])
  }

  lemma {:induction false} WordRoundTrip(v: nat, n: nat)
    requires v < Pow256(n)
    ensures FromLittleEndian(LittleEndian(v, n)) == v
  {
    if n > 0 {
      WordRoundTrip(v / 256, n - 1);
      assert LittleEndian(v, n)[1..] == LittleEndian(v / 256, n - 1);
    }
  }

  lemma EightBytes()
    ensures Pow256(8) == WORD
  {
    assert Pow256(4) == 0x1_0000_0000;
    assert Pow256(6) == 0x1_0000_0000_0000;
  }

  function WordBytes(ws: seq<nat>): (s: Bytes)
    ensures |s| == 8 * |ws|
  {
    if ws == [] then [] else WordBytes(ws[..|ws| - 1]) + LittleEndian(ws[|ws| - 1], 8)
  }

  /** Word `i` of an image. */
  function WordAt(image: Bytes, i: nat): nat
    requires 8 * i + 8 <= |image|
  {
    FromLittleEndian(image[8 * i..8 * i + 8])
  }

  lemma {:induction false} WordOfBytes(ws: seq<nat>, i: nat)
    requires i < |ws| && forall j :: 0 <= j < |ws| ==> ws[j] < WORD
    ensures WordAt(WordBytes(ws), i) == ws[i]
  {
    hide FromLittleEndian, LittleEndian, Pow256;
    var last := |ws| - 1;
    var init, tail := WordBytes(ws[..last]), LittleEndian(ws[last], 8);
    if i == last {
      assert WordBytes(ws)[8 * i..8 * i + 8] == tail;
      EightBytes();
      WordRoundTrip(ws[last], 8);
    } else {
      WordOfBytes(ws[..last], i);
      assert WordBytes(ws)[8 * i..8 * i + 8] == init[8 * i..8 * i + 8];
    }
  }

  // ----- the strings, pushed downwards

  /** The bytes after the blobs have been pushed in turn below one another. */
  function Pile(blobs: seq<Bytes>): Bytes
  {
    if blobs == [] then [] else blobs[|blobs| - 1] + Pile(blobs[..|blobs| - 1])
  }

  /** How far below the top blob `i` starts. */
  function Depth(blobs: seq<Bytes>, i: nat): nat
    requires i < |blobs|
  {
    |Pile(blobs[..i + 1])|
  }

  lemma {:induction false} PileSuffix(blobs: seq<Bytes>, k: nat)
    requires k <= |blobs|
    ensures |Pile(blobs[..k])| <= |Pile(blobs)|
    ensures Pile(blobs)[|Pile(blobs)| - |Pile(blobs[..k])|..] == Pile(blobs[..k])
  {
    if k == |blobs| {
      assert blobs[..k] == blobs;
    } else {
      var init := blobs[..|blobs| - 1];
      PileSuffix(init, k);
      assert init[..k] == blobs[..k];
    }
  }

  /** Blob `i` stands where its depth says. */
  lemma PileHolds(blobs: seq<Bytes>, i: nat)
    requires i < |blobs|
    ensures |blobs[i]| <= Depth(blobs, i) <= |Pile(blobs)|
    ensures var at := |Pile(blobs)| - Depth(blobs, i); Pile(blobs)[at..at + |blobs[i]|] == blobs[i]
  {
    PileSuffix(blobs, i + 1);
    var head := blobs[..i + 1];
    assert head[|head| - 1] == blobs[i] && head[..i] == blobs[..i];
    assert Pile(head) == blobs[i] + Pile(blobs[..i]);
  }

  function CString(s: Bytes): Bytes { s + [0] }

  function CStrings(ss: seq<Bytes>): (r: seq<Bytes>)
    ensures |r| == |ss| && forall i :: 0 <= i < |ss| ==> r[i] == CString(ss[i])
  {
    seq(|ss|, i requires 0 <= i < |ss| => CString(ss[i]))
  }

  // ----- the image

  datatype Input = Input(args: seq<Bytes>, envs: seq<Bytes>, auxv: seq<(nat, nat)>, execfn: Option<Bytes>)
  {
    /** What is pushed: arguments, environment, the executable's name, the random bytes. */
    function Blobs(): seq<Bytes>
    {
      CStrings(args) + CStrings(envs) + (if execfn.Some? then [CString(execfn.value)] else []) + [RANDOM_BYTES]
    }

    /** The strings fit below `top`. */
    predicate Below(top: nat) { |Pile(Blobs())| < top }

    /** The address of blob `i`. */
    function Ptr(top: nat, i: nat): (p: nat)
      requires Below(top) && i < |Blobs()|
      ensures 0 < p <= top
    {
      PileHolds(Blobs(), i);
      top - Depth(Blobs(), i)
    }

    function Ptrs(top: nat, from: nat, n: nat): (ps: seq<nat>)
      requires Below(top) && from + n <= |Blobs()|
      ensures |ps| == n && forall i :: 0 <= i < n ==> ps[i] == Ptr(top, from + i)
    {
      if n == 0 then [] else Ptrs(top, from, n - 1) + [Ptr(top, from + n - 1)]
    }

    /** The auxiliary vector as the program is to see it. */
    function FullAuxv(top: nat): seq<(nat, nat)>
      requires Below(top)
    {
      auxv + [(AT_RANDOM, Ptr(top, |Blobs()| - 1))] +
      (if execfn.Some? then [(AT_EXECFN, Ptr(top, |args| + |envs|))] else [])
    }

    /** The words below the strings: count, argument pointers, environment pointers, auxiliary vector. */
    function Words(top: nat): seq<nat>
      requires Below(top)
    {
      [|args|] + Ptrs(top, 0, |args|) + [0] + Ptrs(top, |args|, |envs|) + [0] + Flatten(FullAuxv(top)) + [0, 0]
    }

    /** `pointer_count` */
    function WordCount(): nat
    {
      var auxvLen := |auxv| + (if execfn.Some? then 1 else 0) + 1;
      1 + |args| + 1 + |envs| + 1 + (auxvLen + 1) * 2
    }

    function Total(): nat { 8 * WordCount() + |Pile(Blobs())| }

    /** Bytes between the words and the strings that round the image up to 16. */
    function Pad(): nat { (16 - Total() % 16) % 16 }

    function Image(top: nat): Bytes
      requires Below(top)
    {
      WordBytes(Words(top)) + Zeros(Pad()) + Pile(Blobs())
    }
  }

  function Flatten(pairs: seq<(nat, nat)>): (r: seq<nat>)
    ensures |r| == 2 * |pairs|
    ensures forall i :: 0 <= i < |pairs| ==> r[2 * i] == pairs[i].0 && r[2 * i + 1] == pairs[i].1
  {
    seq(2 * |pairs|, i requires 0 <= i < 2 * |pairs| => if i % 2 == 0 then pairs[i / 2].0 else pairs[i / 2].1)
  }

  /** Where each group of words stands. */
  lemma WordsLayout(inp: Input, top: nat)
    requires inp.Below(top)
    ensures var (ws, a, e, x) := (inp.Words(top), |inp.args|, |inp.envs|, inp.FullAuxv(top));
      && |ws| == inp.WordCount() == a + e + 3 + 2 * |x| + 2
      && ws[0] == a && ws[1 + a] == 0 && ws[a + 2 + e] == 0 && ws[a + e + 3 + 2 * |x|] == 0
      && ws[a + e + 4 + 2 * |x|] == 0
      && ws[1..1 + a] == inp.Ptrs(top, 0, a)
      && ws[a + 2..a + 2 + e] == inp.Ptrs(top, a, e)
      && ws[a + e + 3..a + e + 3 + 2 * |x|] == Flatten(x)
  {
    var (a, e, x) := (|inp.args|, |inp.envs|, inp.FullAuxv(top));
    AuxvLength(inp, top);
    Parts(a, inp.Ptrs(top, 0, a), inp.Ptrs(top, a, e), Flatten(x));
  }

  lemma Parts(n: nat, p: seq<nat>, q: seq<nat>, r: seq<nat>)
    ensures var ws := [n] + p + [0] + q + [0] + r + [0, 0];
      && |ws| == |p| + |q| + |r| + 5
      && ws[0] == n && ws[1 + |p|] == 0 && ws[|p| + |q| + 2] == 0 && ws[|p| + |q| + |r| + 3] == 0
      && ws[|p| + |q| + |r| + 4] == 0
      && ws[1..1 + |p|] == p
      && ws[|p| + 2..|p| + 2 + |q|] == q
      && ws[|p| + |q| + 3..|p| + |q| + 3 + |r|] == r
  {
    var ws := [n] + p + [0] + q + [0] + r + [0, 0];
    assert ws == [n] + (p + ([0] + q + [0] + r + [0, 0]));
    assert ws == ([n] + p + [0]) + (q + ([0] + r + [0, 0]));
    assert ws == ([n] + p + [0] + q + [0]) + (r + [0, 0]);
  }

  lemma AuxvLength(inp: Input, top: nat)
    requires inp.Below(top)
    ensures |inp.FullAuxv(top)| == |inp.auxv| + 1 + (if inp.execfn.Some? then 1 else 0)
  {
  }

  /** The image is whole, ends with the strings and begins with the words. */
  lemma ImageShape(inp: Input, top: nat)
    requires inp.Below(top)
    ensures var im := inp.Image(top);
      && |im| == inp.Total() + inp.Pad() && |im| % 16 == 0 && |im| < inp.Total() + 16
      && 8 * inp.WordCount() + |Pile(inp.Blobs())| <= |im|
      && im[..8 * inp.WordCount()] == WordBytes(inp.Words(top))
      && im[8 * inp.WordCount()..|im| - |Pile(inp.Blobs())|] == Zeros(inp.Pad())
      && im[|im| - |Pile(inp.Blobs())|..] == Pile(inp.Blobs())
  {
    hide Input.Words, Input.Blobs, Input.WordCount, Pile, WordBytes, Zeros;
    WordsLength(inp, top);
    PadRounds(inp.Total());
    EndsOf(WordBytes(inp.Words(top)), Zeros(inp.Pad()), Pile(inp.Blobs()));
  }

  lemma WordsLength(inp: Input, top: nat)
    requires inp.Below(top)
    ensures |inp.Words(top)| == inp.WordCount()
  {
    hide Input.Words, Input.FullAuxv, Input.Ptrs, Flatten;
    WordsLayout(inp, top);
  }

  lemma PadRounds(total: nat)
    ensures var pad := (16 - total % 16) % 16;
      pad < 16 && (total + pad) % 16 == 0 && total + pad == (total + 15) / 16 * 16
  {
    var q, r := total / 16, total % 16;
    if r == 0 {
      DivUnique(total + 15, 16, q, 15);
    } else {
      DivUnique(16 - r, 16, 0, 16 - r);
      DivUnique(total + 15, 16, q + 1, r - 1);
      MultipleMod(q + 1, 16);
    }
  }

  lemma EndsOf(a: Bytes, b: Bytes, c: Bytes)
    ensures var s := a + b + c;
      |s| == |a| + |b| + |c| && s[..|a|] == a && s[|a|..|s| - |c|] == b && s[|s| - |c|..] == c
  {
  }

  // ----- reading it back

  datatype Startup = Startup(args: seq<Bytes>, envs: seq<Bytes>, auxv: seq<(nat, nat)>)

  /** The words from index `i` up to the first that is zero. */
  function UntilZero(image: Bytes, i: nat): Option<seq<nat>>
    decreases |image| - 8 * i
  {
    if 8 * i + 8 > |image| then None
    else
      var w := WordAt(image, i);
      if w == 0 then Some([])
      else
        match UntilZero(image, i + 1)
        case None => None
        case Some(rest) => Some([w] + rest)
  }

  /** The pairs of words from index `i` up to the first whose key is zero. */
  function PairsUntilZero(image: Bytes, i: nat): Option<seq<(nat, nat)>>
    decreases |image| - 8 * i
  {
    if 8 * i + 16 > |image| then None
    else
      var key, value := WordAt(image, i), WordAt(image, i + 1);
      if key == 0 then Some([])
      else
        match PairsUntilZero(image, i + 2)
        case None => None
        case Some(rest) => Some([(key, value)] + rest)
  }

  /** The bytes from offset `off` up to the first NUL. */
  function StringAt(image: Bytes, off: nat): Option<Bytes>
    decreases |image| - off
  {
    if off >= |image| then None
    else if image[off] == 0 then Some([])
    else
      match StringAt(image, off + 1)
      case None => None
      case Some(rest) => Some([image[off]] + rest)
  }

  /** The strings that the pointers point at, in an image that starts at address `sp`. */
  function StringsAt(image: Bytes, sp: nat, ptrs: seq<nat>): Option<seq<Bytes>>
  {
    if ptrs == [] then Some([])
    else if ptrs[0] < sp then None
    else
      match (StringAt(image, ptrs[0] - sp), StringsAt(image, sp, ptrs[1..]))
      case (Some(s), Some(rest)) => Some([s] + rest)
      case _ => None
  }

  /** What a program started with stack pointer `sp` finds there. */
  function Decode(image: Bytes, sp: nat): Option<Startup>
  {
    if |image| < 8 then None else
    var argc := WordAt(image, 0);
    match UntilZero(image, 1)
    case None => None
    case Some(argv) =>
      if |argv| != argc then None else
      match UntilZero(image, argc + 2)
      case None => None
      case Some(envp) =>
        match (StringsAt(image, sp, argv), StringsAt(image, sp, envp), PairsUntilZero(image, argc + 3 + |envp|))
        case (Some(args), Some(envs), Some(auxv)) => Some(Startup(args, envs, auxv))
        case _ => None
  }

  // ----- the round trip

  /** The image begins with the words `ws`. */
  ghost predicate Begins(image: Bytes, ws: seq<nat>)
  {
    && 8 * |ws| <= |image|
    && forall i :: 0 <= i < |ws| ==> WordAt(image, i) == ws[i]
  }

  lemma {:induction false} ReadWords(image: Bytes, ws: seq<nat>, i: nat, ps: seq<nat>)
    requires Begins(image, ws) && i + |ps| < |ws|
    requires ws[i..i + |ps|] == ps && ws[i + |ps|] == 0
    requires forall j :: 0 <= j < |ps| ==> ps[j] != 0
    ensures UntilZero(image, i) == Some(ps)
    decreases |ps|
  {
    hide WordAt;
    if ps != [] {
      var rest := ps[1..];
      assert ps == [ps[0]] + rest;
      assert ws[i + 1..i + 1 + |rest|] == ws[i..i + |ps|][1..];
      assert WordAt(image, i) == ws[i] == ps[0] by { assert ws[i..i + |ps|][0] == ws[i]; }
      ReadWords(image, ws, i + 1, rest);
    }
  }

  lemma {:induction false} ReadPairs(image: Bytes, ws: seq<nat>, i: nat, ps: seq<(nat, nat)>)
    requires Begins(image, ws) && i + 2 * |ps| + 1 < |ws|
    requires ws[i..i + 2 * |ps|] == Flatten(ps) && ws[i + 2 * |ps|] == 0
    requires forall j :: 0 <= j < |ps| ==> ps[j].0 != 0
    ensures PairsUntilZero(image, i) == Some(ps)
    decreases |ps|
  {
    hide WordAt, Flatten;
    if ps != [] {
      var rest := ps[1..];
      assert ps == [ps[0]] + rest;
      FirstPair(ws, i, ps);
      ReadPairs(image, ws, i + 2, rest);
    }
  }

  lemma FirstPair(ws: seq<nat>, i: nat, ps: seq<(nat, nat)>)
    requires ps != [] && i + 2 * |ps| <= |ws| && ws[i..i + 2 * |ps|] == Flatten(ps)
    ensures ws[i] == ps[0].0 && ws[i + 1] == ps[0].1
    ensures ws[i + 2..i + 2 * |ps|] == Flatten(ps[1..])
  {
    var f := ws[i..i + 2 * |ps|];
    assert f[2 * 0] == ws[i] && f[2 * 0 + 1] == ws[i + 1];
    assert ws[i + 2..i + 2 * |ps|] == f[2..];
    FlattenTail(ps);
  }

  lemma FlattenTail(ps: seq<(nat, nat)>)
    requires ps != []
    ensures Flatten(ps)[2..] == Flatten(ps[1..])
  {
    hide Flatten;
    var all, rest := Flatten(ps), Flatten(ps[1..]);
    forall i | 0 <= i < |rest|
      ensures all[2..][i] == rest[i]
    {
      var j := i / 2;
      assert ps[1..][j] == ps[j + 1];
      if i % 2 == 0 {
        assert all[2 * (j + 1)] == ps[j + 1].0 && rest[2 * j] == ps[1..][j].0;
      } else {
        assert all[2 * (j + 1) + 1] == ps[j + 1].1 && rest[2 * j + 1] == ps[1..][j].1;
      }
    }
  }

  lemma {:induction false} ReadString(image: Bytes, off: nat, s: Bytes)
    requires off + |s| < |image| && image[off..off + |s| + 1] == CString(s)
    requires forall j :: 0 <= j < |s| ==> s[j] != 0
    ensures StringAt(image, off) == Some(s)
    decreases |s|
  {
    var z := image[off..off + |s| + 1];
    assert z[0] == image[off] && z[|s|] == 0;
    if s != [] {
      var rest := s[1..];
      assert s == [s[0]] + rest;
      assert image[off + 1..off + 1 + |rest| + 1] == z[1..] == CString(rest);
      ReadString(image, off + 1, rest);
    }
  }

  lemma {:induction false} ReadStrings(image: Bytes, sp: nat, ps: seq<nat>, ss: seq<Bytes>)
    requires |ps| == |ss|
    requires forall i :: 0 <= i < |ps| ==> ps[i] >= sp && StringAt(image, ps[i] - sp) == Some(ss[i])
    ensures StringsAt(image, sp, ps) == Some(ss)
    decreases |ps|
  {
    hide StringAt;
    if ps != [] {
      assert ss == [ss[0]] + ss[1..];
      ReadStrings(image, sp, ps[1..], ss[1..]);
    }
  }

  /** What the loader's callers provide: strings without interior NUL, real auxiliary keys, and
      values that fit a machine word. */
  ghost predicate WellFormed(inp: Input)
  {
    && (forall i, j :: 0 <= i < |inp.args| && 0 <= j < |inp.args[i]| ==> inp.args[i][j] != 0)
    && (forall i, j :: 0 <= i < |inp.envs| && 0 <= j < |inp.envs[i]| ==> inp.envs[i][j] != 0)
    && (inp.execfn.Some? ==> forall j :: 0 <= j < |inp.execfn.value| ==> inp.execfn.value[j] != 0)
    && (forall i :: 0 <= i < |inp.auxv| ==> 0 < inp.auxv[i].0 < WORD && inp.auxv[i].1 < WORD)
    && |inp.args| < WORD
  }

  /** Blob `i` can be found in the image at its pointer. */
  lemma BlobInImage(inp: Input, top: nat, i: nat)
    requires inp.Below(top) && i < |inp.Blobs()| && |inp.Image(top)| <= top
    ensures var sp, p := top - |inp.Image(top)|, inp.Ptr(top, i);
      && sp <= p && p - sp + |inp.Blobs()[i]| <= |inp.Image(top)|
      && inp.Image(top)[p - sp..p - sp + |inp.Blobs()[i]|] == inp.Blobs()[i]
  {
    hide *;
    ImageShape(inp, top);
    PtrIs(inp, top, i);
    var image, blobs := inp.Image(top), inp.Blobs();
    PileHolds(blobs, i);
    SuffixSlice(image, Pile(blobs), |Pile(blobs)| - Depth(blobs, i), |blobs[i]|);
  }

  lemma BlobCount(inp: Input)
    ensures |inp.Blobs()| == |inp.args| + |inp.envs| + (if inp.execfn.Some? then 1 else 0) + 1
  {
  }

  lemma TotalBelow(inp: Input, top: nat)
    requires inp.Total() + 16 <= top
    ensures inp.Below(top)
  {
    hide Input.Blobs, Pile;
  }

  lemma PtrIs(inp: Input, top: nat, i: nat)
    requires inp.Below(top) && i < |inp.Blobs()|
    ensures inp.Ptr(top, i) == top - Depth(inp.Blobs(), i)
  {
    hide Input.Blobs, Pile, Depth;
  }

  lemma SuffixSlice(image: Bytes, pile: Bytes, at: nat, len: nat)
    requires |pile| <= |image| && image[|image| - |pile|..] == pile && at + len <= |pile|
    ensures var off := |image| - |pile| + at; image[off..off + len] == pile[at..at + len]
  {
    var off := |image| - |pile| + at;
    assert image[off..off + len] == image[|image| - |pile|..][at..at + len];
  }

  lemma WordsFit(inp: Input, top: nat)
    requires inp.Below(top) && WellFormed(inp) && top < WORD
    ensures forall i :: 0 <= i < |inp.Words(top)| ==> inp.Words(top)[i] < WORD
  {
    hide Pile, Depth, Input.Blobs, Input.Ptr;
    var x := inp.FullAuxv(top);
    BlobCount(inp);
    FlattenFits(x);
    PartsFit(|inp.args|, inp.Ptrs(top, 0, |inp.args|), inp.Ptrs(top, |inp.args|, |inp.envs|), Flatten(x));
  }

  predicate AllFit(s: seq<nat>) { forall i :: 0 <= i < |s| ==> s[i] < WORD }

  lemma FlattenFits(x: seq<(nat, nat)>)
    requires forall i :: 0 <= i < |x| ==> x[i].0 < WORD && x[i].1 < WORD
    ensures AllFit(Flatten(x))
  {
  }

  lemma PartsFit(n: nat, p: seq<nat>, q: seq<nat>, r: seq<nat>)
    requires n < WORD && AllFit(p) && AllFit(q) && AllFit(r)
    ensures AllFit([n] + p + [0] + q + [0] + r + [0, 0])
  {
  }

  lemma ImageBegins(inp: Input, top: nat)
    requires inp.Below(top) && WellFormed(inp) && top < WORD
    ensures Begins(inp.Image(top), inp.Words(top))
  {
    hide Input.Image, Input.Words, Input.Blobs, Input.WordCount, WordBytes, Pile, WellFormed, WordAt;
    ImageShape(inp, top);
    WordsLength(inp, top);
    WordsFit(inp, top);
    var image, ws := inp.Image(top), inp.Words(top);
    forall i | 0 <= i < |ws| ensures WordAt(image, i) == ws[i] {
      WordOfPrefix(image, ws, i);
    }
  }

  lemma WordOfPrefix(image: Bytes, ws: seq<nat>, i: nat)
    requires i < |ws| && 8 * |ws| <= |image| && image[..8 * |ws|] == WordBytes(ws)
    requires forall j :: 0 <= j < |ws| ==> ws[j] < WORD
    ensures WordAt(image, i) == ws[i]
  {
    hide WordBytes, FromLittleEndian;
    WordOfBytes(ws, i);
    assert image[8 * i..8 * i + 8] == image[..8 * |ws|][8 * i..8 * i + 8];
  }

  /** A pushed string is read back from its pointer. */
  lemma StringInImage(inp: Input, top: nat, i: nat, s: Bytes)
    requires inp.Below(top) && i < |inp.Blobs()| && |inp.Image(top)| <= top
    requires inp.Blobs()[i] == CString(s) && forall j :: 0 <= j < |s| ==> s[j] != 0
    ensures var sp := top - |inp.Image(top)|;
      inp.Ptr(top, i) >= sp && StringAt(inp.Image(top), inp.Ptr(top, i) - sp) == Some(s)
  {
    BlobInImage(inp, top, i);
    hide Input.Image, Pile, Input.Blobs, Input.Ptr;
    ReadString(inp.Image(top), inp.Ptr(top, i) - (top - |inp.Image(top)|), s);
  }

  lemma ArgsInImage(inp: Input, top: nat)
    requires inp.Below(top) && WellFormed(inp) && |inp.Image(top)| <= top
    ensures StringsAt(inp.Image(top), top - |inp.Image(top)|, inp.Ptrs(top, 0, |inp.args|)) == Some(inp.args)
  {
    hide Input.Image, Pile, Input.Ptr, StringAt;
    var ps := inp.Ptrs(top, 0, |inp.args|);
    forall i | 0 <= i < |ps|
      ensures ps[i] >= top - |inp.Image(top)| &&
        StringAt(inp.Image(top), ps[i] - (top - |inp.Image(top)|)) == Some(inp.args[i])
    {
      assert inp.Blobs()[i] == CString(inp.args[i]);
      StringInImage(inp, top, i, inp.args[i]);
    }
    ReadStrings(inp.Image(top), top - |inp.Image(top)|, ps, inp.args);
  }

  lemma EnvsInImage(inp: Input, top: nat)
    requires inp.Below(top) && WellFormed(inp) && |inp.Image(top)| <= top
    ensures StringsAt(inp.Image(top), top - |inp.Image(top)|, inp.Ptrs(top, |inp.args|, |inp.envs|)) == Some(inp.envs)
  {
    hide Input.Image, Pile, Input.Ptr, StringAt;
    var a := |inp.args|;
    var ps := inp.Ptrs(top, a, |inp.envs|);
    forall i | 0 <= i < |ps|
      ensures ps[i] >= top - |inp.Image(top)| &&
        StringAt(inp.Image(top), ps[i] - (top - |inp.Image(top)|)) == Some(inp.envs[i])
    {
      assert inp.Blobs()[a + i] == CString(inp.envs[i]);
      StringInImage(inp, top, a + i, inp.envs[i]);
    }
    ReadStrings(inp.Image(top), top - |inp.Image(top)|, ps, inp.envs);
  }

  /** Decoding the image from its stack pointer yields the inputs, the auxiliary vector extended by
      the two entries the loader adds. */
  lemma StackRoundTrip(inp: Input, top: nat)
    requires WellFormed(inp) && top < WORD && inp.Total() + 16 <= top
    ensures inp.Below(top) && |inp.Image(top)| <= top
    ensures Decode(inp.Image(top), top - |inp.Image(top)|) ==
      Some(Startup(inp.args, inp.envs, inp.FullAuxv(top)))
  {
    hide *;
    TotalBelow(inp, top);
    BlobCount(inp);
    ImageShape(inp, top);
    WordsLayout(inp, top);
    ImageBegins(inp, top);
    ArgsInImage(inp, top);
    EnvsInImage(inp, top);
    AuxvKeys(inp, top);
    var a, e := |inp.args|, |inp.envs|;
    var image, ws := inp.Image(top), inp.Words(top);
    ReadWords(image, ws, 1, inp.Ptrs(top, 0, a));
    ReadWords(image, ws, a + 2, inp.Ptrs(top, a, e));
    ReadPairs(image, ws, a + e + 3, inp.FullAuxv(top));
    FirstWord(image, ws);
    DecodeFrom(image, top - |image|, inp.Ptrs(top, 0, a), inp.Ptrs(top, a, e), inp.args, inp.envs, inp.FullAuxv(top));
  }

  lemma FirstWord(image: Bytes, ws: seq<nat>)
    requires Begins(image, ws) && ws != []
    ensures |image| >= 8 && WordAt(image, 0) == ws[0]
  {
    hide WordAt;
  }

  lemma DecodeFrom(image: Bytes, sp: nat, argv: seq<nat>, envp: seq<nat>, args: seq<Bytes>, envs: seq<Bytes>,
                   auxv: seq<(nat, nat)>)
    requires |image| >= 8 && WordAt(image, 0) == |argv|
    requires UntilZero(image, 1) == Some(argv) && UntilZero(image, |argv| + 2) == Some(envp)
    requires PairsUntilZero(image, |argv| + |envp| + 3) == Some(auxv)
    requires StringsAt(image, sp, argv) == Some(args) && StringsAt(image, sp, envp) == Some(envs)
    ensures Decode(image, sp) == Some(Startup(args, envs, auxv))
  {
    hide WordAt, UntilZero, PairsUntilZero, StringsAt;
    assert |argv| + 3 + |envp| == |argv| + |envp| + 3;
  }

  lemma AuxvKeys(inp: Input, top: nat)
    requires inp.Below(top) && WellFormed(inp)
    ensures forall j :: 0 <= j < |inp.FullAuxv(top)| ==> inp.FullAuxv(top)[j].0 != 0
  {
    hide Pile, Input.Ptr;
  }

  /** The image is the words, the padding that rounds it up, and the strings. */
  lemma ImageIs(inp: Input, top: nat, aligned: nat)
    requires inp.Below(top) && aligned == (inp.Total() + 15) / 16 * 16
    ensures aligned >= inp.Total()
    ensures inp.Image(top) == WordBytes(inp.Words(top)) + Zeros(aligned - inp.Total()) + Pile(inp.Blobs())
  {
    hide Input.Words, Input.Blobs, Pile, WordBytes, Input.Total, Zeros;
    PadRounds(inp.Total());
  }

  /** `AT_RANDOM` points at the random bytes. */
  lemma RandomPointer(inp: Input, top: nat)
    requires inp.Below(top) && |inp.Image(top)| <= top
    ensures |inp.FullAuxv(top)| > |inp.auxv| && inp.FullAuxv(top)[|inp.auxv|].0 == AT_RANDOM
    ensures inp.FullAuxv(top)[..|inp.auxv|] == inp.auxv
    ensures
      var image := inp.Image(top);
      var r := inp.FullAuxv(top)[|inp.auxv|].1 - (top - |image|);
      0 <= r && r + 16 <= |image| && image[r..r + 16] == RANDOM_BYTES
  {
    hide Input.Image, Input.Blobs, Input.FullAuxv, Pile, Input.Ptr, Input.Below;
    BlobCount(inp);
    AddedEntries(inp, top);
    BlobInImage(inp, top, |inp.Blobs()| - 1);
  }

  /** The entries the loader adds, and the blobs they point at. */
  lemma AddedEntries(inp: Input, top: nat)
    requires inp.Below(top) && |inp.Blobs()| >= |inp.args| + |inp.envs| + 1
    ensures inp.Blobs()[|inp.Blobs()| - 1] == RANDOM_BYTES
    ensures var x := inp.FullAuxv(top);
      |x| > |inp.auxv| && x[..|inp.auxv|] == inp.auxv && x[|inp.auxv|] == (AT_RANDOM, inp.Ptr(top, |inp.Blobs()| - 1))
    ensures inp.execfn.Some? ==>
      && inp.Blobs()[|inp.args| + |inp.envs|] == CString(inp.execfn.value)
      && var x := inp.FullAuxv(top);
         |x| == |inp.auxv| + 2 && x[|inp.auxv| + 1] == (AT_EXECFN, inp.Ptr(top, |inp.args| + |inp.envs|))
  {
    hide Pile, Input.Ptr;
  }

  /** `AT_EXECFN` points at the executable's name. */
  lemma ExecPointer(inp: Input, top: nat)
    requires WellFormed(inp) && inp.Below(top) && |inp.Image(top)| <= top && inp.execfn.Some?
    ensures |inp.FullAuxv(top)| == |inp.auxv| + 2 && inp.FullAuxv(top)[|inp.auxv| + 1].0 == AT_EXECFN
    ensures
      var sp := top - |inp.Image(top)|;
      var p := inp.FullAuxv(top)[|inp.auxv| + 1].1;
      p >= sp && StringAt(inp.Image(top), p - sp) == inp.execfn
  {
    hide Input.Image, Input.Blobs, Input.FullAuxv, Pile, Input.Ptr, Input.Below, StringAt;
    BlobCount(inp);
    AddedEntries(inp, top);
    StringInImage(inp, top, |inp.args| + |inp.envs|, inp.execfn.value);
  }
}
