/** Anonymous pipes: a byte queue shared by reference-counted read and write handles. */
module Pipes {
  import opened Wrappers
  import opened Ordered
  import opened Bits
  import opened Sequences

  const EAGAIN: int := 11
  const EINVAL: int := 22
  const EPIPE: int := 32

  datatype End = ReadEnd | WriteEnd | NoEnd

  datatype Pipe = Pipe(buf: seq<Byte>, readers: nat, writers: nat)

  // ----- one call

  /** What a read returns and what it leaves. */
  function Read(p: Pipe, end: End, len: nat): (Result<seq<Byte>>, Pipe)
  {
    if end.WriteEnd? then (Err(EINVAL), p)
    else if p.buf == [] then (if p.writers == 0 then Ok([]) else Err(EAGAIN), p)
    else var n := Min(len, |p.buf|); (Ok(p.buf[..n]), p.(buf := p.buf[n..]))
  }

  /** The pipe has no capacity limit: a write takes all bytes or none. */
  function Write(p: Pipe, end: End, data: seq<Byte>): (Result<nat>, Pipe)
  {
    if end.ReadEnd? then (Err(EINVAL), p)
    else if data == [] then (Ok(0), p)
    else if p.readers == 0 then (Err(EPIPE), p)
    else (Ok(|data|), p.(buf := p.buf + data))
  }

  function Acquired(p: Pipe, end: End): Pipe
  {
    match end
    case ReadEnd => p.(readers := SaturatingAdd(p.readers, 1))
    case WriteEnd => p.(writers := SaturatingAdd(p.writers, 1))
    case NoEnd => p
  }

  function Released(p: Pipe, end: End): Pipe
  {
    match end
    case ReadEnd => p.(readers := SaturatingSub(p.readers, 1))
    case WriteEnd => p.(writers := SaturatingSub(p.writers, 1))
    case NoEnd => p
  }

  predicate PollRead(p: Pipe) { p.buf != [] || p.writers == 0 }

  predicate PollWrite(p: Pipe) { p.readers != 0 }

  // ----- runs

  /** A pipe, the handles that refer to it, and what has been written and read so far. */
  datatype State = State(pipe: Pipe, handles: map<int, End>, written: seq<Byte>, read: seq<Byte>)

  datatype Op =
    | DoWrite(h: int, data: seq<Byte>)
    | DoRead(h: int, len: nat)
    | Clone(h: int, copy: int)
    | Drop(h: int)

  ghost function Holders(handles: map<int, End>, end: End): set<int>
  {
    set h | h in handles && handles[h] == end
  }

  /** Calls go through live handles, a clone is a new handle, and there are fewer than 2^64 handles. */
  ghost predicate Legal(s: State, op: Op)
  {
    && op.h in s.handles
    && (op.Clone? ==> op.copy !in s.handles && |Holders(s.handles, s.handles[op.h])| + 1 < WORD)
  }

  function Step(s: State, op: Op): State
    requires op.h in s.handles
  {
    var end := s.handles[op.h];
    match op
    case DoWrite(h, data) =>
      var (r, p) := Write(s.pipe, end, data);
      s.(pipe := p, written := if r.Ok? then s.written + data else s.written)
    case DoRead(h, len) =>
      var (r, p) := Read(s.pipe, end, len);
      s.(pipe := p, read := if r.Ok? then s.read + r.value else s.read)
    case Clone(h, copy) => s.(pipe := Acquired(s.pipe, end), handles := s.handles[copy := end])
    case Drop(h) => s.(pipe := Released(s.pipe, end), handles := s.handles - {h})
  }

  /** A new pipe with one handle of each end. */
  function Created(reader: int, writer: int): State
  {
    State(Pipe([], 1, 1), map[reader := ReadEnd, writer := WriteEnd], [], [])
  }

  /** The stream law: what was read, followed by what is buffered, is what was written; and the counters are
      the numbers of live handles. */
  ghost predicate Law(s: State)
  {
    && s.written == s.read + s.pipe.buf
    && s.pipe.readers == |Holders(s.handles, ReadEnd)|
    && s.pipe.writers == |Holders(s.handles, WriteEnd)|
    && (forall h :: h in s.handles ==> !s.handles[h].NoEnd?)
  }

  lemma CreatedKeepsLaw(reader: int, writer: int)
    requires reader != writer
    ensures Law(Created(reader, writer))
  {
    var s := Created(reader, writer);
    assert Holders(s.handles, ReadEnd) == {reader};
    assert Holders(s.handles, WriteEnd) == {writer};
  }

  lemma CloneCounts(handles: map<int, End>, copy: int, end: End, other: End)
    requires copy !in handles
    ensures |Holders(handles[copy := end], other)| == |Holders(handles, other)| + if other == end then 1 else 0
  {
    var a, b := Holders(handles, other), Holders(handles[copy := end], other);
    assert forall h :: h in b <==> h in a || (h == copy && other == end);
    assert copy !in a;
    hide Holders;
    if other == end {
      assert b == a + {copy};
    } else {
      assert b == a;
    }
  }

  lemma DropCounts(handles: map<int, End>, h: int, other: End)
    requires h in handles
    ensures |Holders(handles, other)| == |Holders(handles - {h}, other)| + if other == handles[h] then 1 else 0
  {
    if other == handles[h] {
      assert Holders(handles, other) == Holders(handles - {h}, other) + {h};
    } else {
      assert Holders(handles - {h}, other) == Holders(handles, other);
    }
  }

  lemma StepKeepsLaw(s: State, op: Op)
    requires Law(s) && Legal(s, op)
    ensures Law(Step(s, op))
  {
    hide Holders;
    match op
    case DoWrite(h, data) =>
      assert s.read + (s.pipe.buf + data) == s.written + data;
    case DoRead(h, len) =>
      var n := Min(len, |s.pipe.buf|);
      assert s.pipe.buf[..n] + s.pipe.buf[n..] == s.pipe.buf;
      assert (s.read + s.pipe.buf[..n]) + s.pipe.buf[n..] == s.written;
    case Clone(h, copy) =>
      CloneCounts(s.handles, copy, s.handles[h], ReadEnd);
      CloneCounts(s.handles, copy, s.handles[h], WriteEnd);
    case Drop(h) =>
      DropCounts(s.handles, h, ReadEnd);
      DropCounts(s.handles, h, WriteEnd);
  }

  /** Dropping a live handle always finds its counter positive. */
  lemma DropNeverSaturates(s: State, h: int)
    requires Law(s) && h in s.handles
    ensures s.handles[h].ReadEnd? ==> s.pipe.readers == Released(s.pipe, s.handles[h]).readers + 1
    ensures s.handles[h].WriteEnd? ==> s.pipe.writers == Released(s.pipe, s.handles[h]).writers + 1
  {
    DropCounts(s.handles, h, s.handles[h]);
  }

  ghost predicate Reaches(s: State, ops: seq<Op>, u: State)
    decreases |ops|
  {
    if ops == [] then s == u else Legal(s, ops[0]) && Reaches(Step(s, ops[0]), ops[1..], u)
  }

  /** Over every interleaving of writes, reads, clones and drops. */
  lemma {:induction false} EveryRunKeepsLaw(s: State, ops: seq<Op>, u: State)
    requires Law(s) && Reaches(s, ops, u)
    ensures Law(u)
    decreases |ops|
  {
    if ops != [] {
      StepKeepsLaw(s, ops[0]);
      EveryRunKeepsLaw(Step(s, ops[0]), ops[1..], u);
    }
  }

  ghost predicate HasWriter(s: State)
  {
    exists h :: h in s.handles && s.handles[h].WriteEnd?
  }

  lemma WriterCounted(s: State)
    requires Law(s)
    ensures s.pipe.writers == 0 <==> !HasWriter(s)
  {
    var w := Holders(s.handles, WriteEnd);
    assert forall h :: h in s.handles && s.handles[h].WriteEnd? ==> h in w;
    HasElement(w);
    assert w != {} ==> HasWriter(s);
  }

  ghost predicate HasReader(s: State)
  {
    exists h :: h in s.handles && s.handles[h].ReadEnd?
  }

  lemma ReaderCounted(s: State)
    requires Law(s)
    ensures s.pipe.readers == 0 <==> !HasReader(s)
  {
    var w := Holders(s.handles, ReadEnd);
    assert forall h :: h in s.handles && s.handles[h].ReadEnd? ==> h in w;
    HasElement(w);
    assert w != {} ==> HasReader(s);
  }

  /** What a write reports is what entered the stream: all the bytes, at its end, or an error and nothing.  It fails
      exactly through a read handle, and with no read handle left when there is something to write. */
  lemma WriteReports(s: State, h: int, data: seq<Byte>)
    requires Law(s) && h in s.handles
    ensures var r, u := Write(s.pipe, s.handles[h], data).0, Step(s, DoWrite(h, data));
      && (r.Ok? <==> s.handles[h].WriteEnd? && (data == [] || HasReader(s)))
      && (r.Ok? ==> r.value == |u.written| - |s.written| == |data| && u.written == s.written + data)
      && (r.Ok? ==> u.pipe == s.pipe.(buf := s.pipe.buf + data) && u.read == s.read && u.handles == s.handles)
      && (r.Err? ==> u == s && r.errno == if s.handles[h].ReadEnd? then EINVAL else EPIPE)
  {
    ReaderCounted(s);
    assert s.pipe.buf + [] == s.pipe.buf;
  }

  /** What a read reports is what left the stream, at its front, or an error and nothing.  It fails exactly through a
      write handle, and when everything written has been read and a write handle lives. */
  lemma ReadReports(s: State, h: int, len: nat)
    requires Law(s) && h in s.handles
    ensures var r, u := Read(s.pipe, s.handles[h], len).0, Step(s, DoRead(h, len));
      && (r.Ok? <==> s.handles[h].ReadEnd? && (s.read != s.written || !HasWriter(s)))
      && (r.Ok? ==> u.read == s.read + r.value && s.pipe.buf == r.value + u.pipe.buf)
      && (r.Ok? ==> |r.value| == Min(len, |s.pipe.buf|))
      && (r.Ok? ==> u.pipe == s.pipe.(buf := u.pipe.buf) && u.written == s.written && u.handles == s.handles)
      && (r.Err? ==> u == s && r.errno == if s.handles[h].WriteEnd? then EINVAL else EAGAIN)
  {
    WriterCounted(s);
    DrainedIff(s);
    var n := Min(len, |s.pipe.buf|);
    assert s.pipe.buf == s.pipe.buf[..n] + s.pipe.buf[n..];
    assert s.read + [] == s.read;
  }

  lemma DrainedIff(s: State)
    requires Law(s)
    ensures s.read == s.written <==> s.pipe.buf == []
  {
    assert |s.written| == |s.read| + |s.pipe.buf|;
    assert s.pipe.buf == [] ==> s.read + s.pipe.buf == s.read;
  }

  /** A read for at least one byte through a read handle returns nothing exactly at end of file: everything
      written has been read and no write handle lives. */
  lemma EofIff(s: State, h: int, len: nat)
    requires Law(s) && h in s.handles && s.handles[h].ReadEnd? && len > 0
    ensures Read(s.pipe, ReadEnd, len).0 == Ok([]) <==> s.read == s.written && !HasWriter(s)
  {
    WriterCounted(s);
    DrainedIff(s);
  }

  /** A read takes the oldest unread bytes, as many as asked for or as many as there are. */
  lemma ReadIsNext(s: State, h: int, len: nat)
    requires Law(s) && h in s.handles && s.handles[h].ReadEnd? && s.read != s.written
    ensures |s.read| <= |s.written|
    ensures var n := Min(len, |s.written| - |s.read|);
      Read(s.pipe, ReadEnd, len).0 == Ok(s.written[|s.read|..][..n])
  {
    assert s.written[|s.read|..] == s.pipe.buf;
    assert s.pipe.buf == [] ==> s.read == s.written;
  }

  /** Once at end of file, always at end of file. */
  lemma {:induction false} EofIsFinal(s: State, ops: seq<Op>, u: State)
    requires Law(s) && Reaches(s, ops, u) && s.read == s.written && !HasWriter(s)
    ensures u.read == s.read && u.written == s.written && !HasWriter(u)
    decreases |ops|
  {
    if ops != [] {
      EofStep(s, ops[0]);
      StepKeepsLaw(s, ops[0]);
      EofIsFinal(Step(s, ops[0]), ops[1..], u);
    }
  }

  lemma EofStep(s: State, op: Op)
    requires Law(s) && Legal(s, op) && s.read == s.written && !HasWriter(s)
    ensures var u := Step(s, op); u.read == s.read && u.written == s.written && !HasWriter(u)
  {
    hide Holders;
    assert s.pipe.buf == [] by {
      assert |s.written| == |s.read| + |s.pipe.buf|;
    }
    assert s.handles[op.h].ReadEnd?;
    assert s.read + [] == s.read;
  }

  /** Polling a readable handle says exactly whether a read would not return EAGAIN. */
  lemma PollReadIff(p: Pipe, end: End, len: nat)
    requires !end.WriteEnd?
    ensures PollRead(p) <==> Read(p, end, len).0 != Err(EAGAIN)
  {
  }

  /** Polling a writable handle says exactly whether writing something would not return EPIPE. */
  lemma PollWriteIff(p: Pipe, end: End, data: seq<Byte>)
    requires !end.ReadEnd? && data != []
    ensures PollWrite(p) <==> Write(p, end, data).0 != Err(EPIPE)
  {
  }

  // ----- the node

  class PipeNode {
    var buf: seq<Byte>
    var readers: nat
    var writers: nat

    function View(): Pipe
      reads this
    {
      Pipe(buf, readers, writers)
    }

    constructor ()
      ensures View() == Created(0, 1).pipe
    {
      buf, readers, writers := [], 1, 1;
    }

    method ReadObject(end: End, len: nat) returns (r: Result<seq<Byte>>)
      modifies this`buf
      ensures r == Read(old(View()), end, len).0 && View() == Read(old(View()), end, len).1
    {
      if end == WriteEnd {
        return Err(EINVAL);
      }
      if buf == [] {
        if writers == 0 {
          return Ok([]);
        }
        return Err(EAGAIN);
      }
      var count := Min(len, |buf|);
      var out: seq<Byte> := [];
      var i := 0;
      while i < count
        invariant 0 <= i <= count && |buf| == |old(buf)| - i
        invariant out == old(buf)[..i] && buf == old(buf)[i..]
      {
        if buf != [] {
          out := out + [buf[0]];
          buf := buf[1..];
        }
        i := i + 1;
      }
      r := Ok(out);
    }

    method WriteObject(end: End, data: seq<Byte>) returns (r: Result<nat>)
      modifies this`buf
      ensures r == Write(old(View()), end, data).0 && View() == Write(old(View()), end, data).1
    {
      if end == ReadEnd {
        return Err(EINVAL);
      }
      if data == [] {
        return Ok(0);
      }
      if readers == 0 {
        return Err(EPIPE);
      }
      buf := buf + data;
      r := Ok(|data|);
    }

    method AdjustRefcount(end: End, delta: int)
      requires delta == 1 || delta == -1
      modifies this`readers, this`writers
      ensures View() == if delta > 0 then Acquired(old(View()), end) else Released(old(View()), end)
    {
      if end == NoEnd {
        return;
      }
      var target := if end == ReadEnd then readers else writers;
      target := if delta > 0 then SaturatingAdd(target, delta) else SaturatingSub(target, -delta);
      if end == ReadEnd {
        readers := target;
      } else {
        writers := target;
      }
    }
  }
}
