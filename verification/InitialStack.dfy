/** `build_initial_stack`: the loader's own way to the image, through two buffers. */
module InitialStack {
  import opened Bits
  import opened Sequences
  import opened Wrappers
  import opened StackLayout

  const ENOMEM: int := 12
  const USER_STACK_SIZE: nat := 0x80_000
  const USER_STACK_TOP: nat := 0x7fff_f000

  /** `entry.len() + 1`, summed. */
  function SumLengths(ss: seq<Bytes>): nat
  {
    if ss == [] then 0 else SumLengths(ss[..|ss| - 1]) + |ss[|ss| - 1]| + 1
  }

  lemma {:induction false} PileLength(a: seq<Bytes>, b: seq<Bytes>)
    ensures |Pile(a + b)| == |Pile(a)| + |Pile(b)|
  {
    if b == [] {
      assert a + b == a;
    } else {
      var n := |b| - 1;
      assert (a + b)[..|a| + n] == a + b[..n];
      PileLength(a, b[..n]);
    }
  }

  lemma {:induction false} PileOfStrings(ss: seq<Bytes>)
    ensures |Pile(CStrings(ss))| == SumLengths(ss)
  {
    if ss != [] {
      var n := |ss| - 1;
      assert CStrings(ss)[..n] == CStrings(ss[..n]);
      PileOfStrings(ss[..n]);
    }
  }

  function StringBytes(inp: Input): nat
  {
    SumLengths(inp.args) + SumLengths(inp.envs) + (if inp.execfn.Some? then |inp.execfn.value| + 1 else 0) + 16
  }

  lemma StringBytesIsPile(inp: Input)
    ensures StringBytes(inp) == |Pile(inp.Blobs())|
  {
    var a, e := CStrings(inp.args), CStrings(inp.envs);
    var x := if inp.execfn.Some? then [CString(inp.execfn.value)] else [];
    PileOfStrings(inp.args);
    PileOfStrings(inp.envs);
    PileLength(a, e);
    PileLength(a + e, x);
    PileLength(a + e + x, [RANDOM_BYTES]);
    SinglePile(RANDOM_BYTES);
    if inp.execfn.Some? {
      SinglePile(CString(inp.execfn.value));
    }
  }

  lemma SinglePile(b: Bytes)
    ensures Pile([b]) == b
  {
    assert [b][..0] == [];
    assert Pile([]) == [];
  }

  function RoundUp16(n: nat): nat { (n + 15) / 16 * 16 }

  // ----- the string buffer, filled from its end

  /** The buffer from `cursor` on holds the first `k` blobs. */
  ghost predicate Pushed(stack: array<nat>, cursor: nat, blobs: seq<Bytes>, k: nat)
    reads stack
  {
    cursor <= stack.Length && k <= |blobs| && stack[cursor..] == Pile(blobs[..k])
  }

  /** `push_blob` */
  method PushBlob(stack: array<nat>, cursor: nat, blob: Bytes, top: nat, ghost inp: Input, ghost k: nat)
      returns (next: nat, ptr: nat)
    requires Pushed(stack, cursor, inp.Blobs(), k) && k < |inp.Blobs()| && inp.Blobs()[k] == blob
    requires |Pile(inp.Blobs())| <= stack.Length && inp.Below(top)
    modifies stack
    ensures Pushed(stack, next, inp.Blobs(), k + 1) && ptr == inp.Ptr(top, k)
  {
    hide Pile, Input.Blobs, Input.Ptr;
    ghost var blobs := inp.Blobs();
    PileHolds(blobs, k);
    PtrIs(inp, top, k);
    PileStep(blobs, k);
    next := cursor - |blob|;
    ghost var before := stack[cursor..];
    forall i | 0 <= i < |blob| {
      stack[next + i] := blob[i];
    }
    assert stack[next..] == blob + before;
    ptr := top - (stack.Length - next);
  }

  lemma PileStep(blobs: seq<Bytes>, k: nat)
    requires k < |blobs|
    ensures Pile(blobs[..k + 1]) == blobs[k] + Pile(blobs[..k])
    ensures Depth(blobs, k) == |blobs[k]| + |Pile(blobs[..k])|
  {
    var head := blobs[..k + 1];
    assert head[|head| - 1] == blobs[k] && head[..k] == blobs[..k];
  }

  /** The two loops over arguments and environment. */
  method PushStrings(stack: array<nat>, cursor: nat, strings: seq<Bytes>, top: nat, ghost inp: Input, ghost k: nat)
      returns (next: nat, ptrs: seq<nat>)
    requires Pushed(stack, cursor, inp.Blobs(), k) && k + |strings| <= |inp.Blobs()|
    requires forall i :: 0 <= i < |strings| ==> inp.Blobs()[k + i] == CString(strings[i])
    requires |Pile(inp.Blobs())| <= stack.Length && inp.Below(top)
    modifies stack
    ensures Pushed(stack, next, inp.Blobs(), k + |strings|) && ptrs == inp.Ptrs(top, k, |strings|)
  {
    hide Pile, Input.Blobs, Input.Ptr, Pushed;
    next, ptrs := cursor, [];
    for i := 0 to |strings|
      invariant Pushed(stack, next, inp.Blobs(), k + i) && ptrs == inp.Ptrs(top, k, i)
    {
      var ptr;
      next, ptr := PushBlob(stack, next, strings[i] + [0], top, inp, k + i);
      ptrs := ptrs + [ptr];
    }
  }

  // ----- the word buffer

  /** The buffer holds the first `n` words. */
  ghost predicate Filled(head: array<nat>, ws: seq<nat>, n: nat)
    reads head
  {
    n <= |ws| && head.Length == 8 * |ws| && head[..8 * n] == WordBytes(ws[..n])
  }

  method PutWord(head: array<nat>, n: nat, value: nat, ghost ws: seq<nat>)
    requires Filled(head, ws, n) && n < |ws| && ws[n] == value
    modifies head
    ensures Filled(head, ws, n + 1)
  {
    hide LittleEndian;
    var bytes := LittleEndian(value, 8);
    ghost var before := head[..8 * n];
    forall i | 0 <= i < 8 {
      head[8 * n + i] := bytes[i];
    }
    assert head[..8 * (n + 1)] == before + bytes;
    assert ws[..n + 1][..n] == ws[..n] && ws[..n + 1][n] == value;
  }

  method PutWords(head: array<nat>, n: nat, values: seq<nat>, ghost ws: seq<nat>)
    requires Filled(head, ws, n) && n + |values| <= |ws| && ws[n..n + |values|] == values
    modifies head
    ensures Filled(head, ws, n + |values|)
  {
    hide WordBytes, Filled;
    for i := 0 to |values|
      invariant Filled(head, ws, n + i)
    {
      assert ws[n..n + |values|][i] == ws[n + i];
      PutWord(head, n + i, values[i], ws);
    }
  }

  method PutPairs(head: array<nat>, n: nat, pairs: seq<(nat, nat)>, ghost ws: seq<nat>)
    requires Filled(head, ws, n) && n + 2 * |pairs| <= |ws| && ws[n..n + 2 * |pairs|] == Flatten(pairs)
    modifies head
    ensures Filled(head, ws, n + 2 * |pairs|)
  {
    hide WordBytes, Filled, Flatten;
    for i := 0 to |pairs|
      invariant Filled(head, ws, n + 2 * i)
    {
      assert ws[n..n + 2 * |pairs|][2 * i] == ws[n + 2 * i];
      assert ws[n..n + 2 * |pairs|][2 * i + 1] == ws[n + 2 * i + 1];
      PutWord(head, n + 2 * i, pairs[i].0, ws);
      PutWord(head, n + 2 * i + 1, pairs[i].1, ws);
    }
  }

  // ----- the whole

  method PushAll(stack: array<nat>, inp: Input, top: nat)
      returns (cursor: nat, argPtrs: seq<nat>, envPtrs: seq<nat>, execPtr: Option<nat>, randomPtr: nat)
    requires stack.Length >= |Pile(inp.Blobs())| && inp.Below(top)
    modifies stack
    ensures cursor <= stack.Length && stack[cursor..] == Pile(inp.Blobs())
    ensures argPtrs == inp.Ptrs(top, 0, |inp.args|) && envPtrs == inp.Ptrs(top, |inp.args|, |inp.envs|)
    ensures execPtr == if inp.execfn.Some? then Some(inp.Ptr(top, |inp.args| + |inp.envs|)) else None
    ensures randomPtr == inp.Ptr(top, |inp.Blobs()| - 1)
  {
    hide Pile, Input.Ptr;
    BlobCount(inp);
    ghost var a, e := |inp.args|, |inp.envs|;
    cursor := stack.Length;
    NothingPushed(stack, inp.Blobs());
    cursor, argPtrs := PushStrings(stack, cursor, inp.args, top, inp, 0);
    cursor, envPtrs := PushStrings(stack, cursor, inp.envs, top, inp, a);
    execPtr := None;
    if inp.execfn.Some? {
      var ptr;
      cursor, ptr := PushBlob(stack, cursor, inp.execfn.value + [0], top, inp, a + e);
      execPtr := Some(ptr);
    }
    cursor, randomPtr := PushBlob(stack, cursor, RANDOM_BYTES, top, inp, |inp.Blobs()| - 1);
    assert inp.Blobs()[..|inp.Blobs()|] == inp.Blobs();
  }

  lemma NothingPushed(stack: array<nat>, blobs: seq<Bytes>)
    ensures Pushed(stack, stack.Length, blobs, 0)
  {
    assert stack[stack.Length..] == [] && blobs[..0] == [];
  }

  method FillHead(head: array<nat>, inp: Input, argPtrs: seq<nat>, envPtrs: seq<nat>, execPtr: Option<nat>,
                  randomPtr: nat, ghost top: nat)
    requires inp.Below(top) && head.Length == 8 * inp.WordCount()
    requires argPtrs == inp.Ptrs(top, 0, |inp.args|) && envPtrs == inp.Ptrs(top, |inp.args|, |inp.envs|)
    requires execPtr == if inp.execfn.Some? then Some(inp.Ptr(top, |inp.args| + |inp.envs|)) else None
    requires randomPtr == inp.Ptr(top, |inp.Blobs()| - 1)
    modifies head
    ensures head[..] == WordBytes(inp.Words(top))
  {
    hide Input.Words, Input.Ptr, Input.Ptrs, Pile, WordBytes, Filled, Flatten;
    WordsLayout(inp, top);
    ghost var ws := inp.Words(top);
    var a, e := |inp.args|, |inp.envs|;
    NothingFilled(head, ws);
    PutWord(head, 0, a, ws);
    PutWords(head, 1, argPtrs, ws);
    PutWord(head, 1 + a, 0, ws);
    PutWords(head, a + 2, envPtrs, ws);
    PutWord(head, a + e + 2, 0, ws);
    var pairs := inp.auxv + [(AT_RANDOM, randomPtr)] + (if execPtr.Some? then [(AT_EXECFN, execPtr.value)] else []);
    assert pairs == inp.FullAuxv(top);
    PutPairs(head, a + e + 3, pairs, ws);
    var n := a + e + 3 + 2 * |pairs|;
    PutWord(head, n, 0, ws);
    PutWord(head, n + 1, 0, ws);
    AllFilled(head, ws);
  }

  lemma NothingFilled(head: array<nat>, ws: seq<nat>)
    requires head.Length == 8 * |ws|
    ensures Filled(head, ws, 0)
  {
    assert head[..0] == [] && ws[..0] == [];
  }

  lemma AllFilled(head: array<nat>, ws: seq<nat>)
    requires Filled(head, ws, |ws|)
    ensures head[..] == WordBytes(ws)
  {
    assert ws[..|ws|] == ws;
  }

  method BuildInitialStack(inp: Input, top: nat) returns (r: Result<Bytes>)
    requires inp.Below(top)
    ensures r.Err? <==> inp.Total() > USER_STACK_SIZE
    ensures r.Err? ==> r.errno == ENOMEM
    ensures r.Ok? ==> r.value == inp.Image(top) && |r.value| % 16 == 0 && |r.value| <= USER_STACK_SIZE
  {
    hide Input.Words, Input.Blobs, Input.Image, Pile, WordBytes, StringBytes, Input.WordCount, Zeros;
    StringBytesIsPile(inp);
    ImageShape(inp, top);
    var stack := new nat[RoundUp16(StringBytes(inp) + inp.WordCount() * 8)](_ => 0);
    var cursor, argPtrs, envPtrs, execPtr, randomPtr := PushAll(stack, inp, top);
    var head := new nat[8 * inp.WordCount()](_ => 0);
    FillHead(head, inp, argPtrs, envPtrs, execPtr, randomPtr, top);
    var total := head.Length + (stack.Length - cursor);
    assert total == inp.Total();
    if total > USER_STACK_SIZE {
      return Err(ENOMEM);
    }
    var aligned := RoundUp16(total);
    ImageIs(inp, top, aligned);
    var pad := aligned - total;
    return Ok(head[..] + Zeros(pad) + stack[cursor..]);
  }

  /** The initial stack of every program that is started: the pointer is 16-aligned, the image fits,
      and decoding it from there gives the program what `execve` was given. */
  lemma ProgramSeesInput(inp: Input)
    requires WellFormed(inp) && inp.Total() <= USER_STACK_SIZE
    ensures inp.Below(USER_STACK_TOP)
    ensures var image := inp.Image(USER_STACK_TOP);
      && |image| <= USER_STACK_SIZE && (USER_STACK_TOP - |image|) % 16 == 0
      && Decode(image, USER_STACK_TOP - |image|) ==
         Some(Startup(inp.args, inp.envs, inp.FullAuxv(USER_STACK_TOP)))
  {
    FitsBelow(inp);
    hide Input.Image, Input.Blobs, Input.Total, Input.Words, Input.FullAuxv, Input.Below, Pile, WordBytes, Decode;
    hide WellFormed;
    StackRoundTrip(inp, USER_STACK_TOP);
    ImageShape(inp, USER_STACK_TOP);
    RoundedFits(|inp.Image(USER_STACK_TOP)|, inp.Total());
  }

  lemma FitsBelow(inp: Input)
    requires inp.Total() <= USER_STACK_SIZE
    ensures inp.Below(USER_STACK_TOP)
  {
    hide Input.Blobs, Input.WordCount, Pile;
  }

  lemma RoundedFits(n: nat, total: nat)
    requires n % 16 == 0 && n < total + 16 && total <= USER_STACK_SIZE
    ensures n <= USER_STACK_SIZE && (USER_STACK_TOP - n) % 16 == 0
  {
    var q := n / 16;
    assert n == 16 * q;
    DivUnique(USER_STACK_TOP - n, 16, USER_STACK_TOP / 16 - q, 0);
  }
}
