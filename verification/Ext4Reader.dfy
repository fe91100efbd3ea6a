/** Byte reads under the ext4 file system: unaligned ranges stitched from sectors, and file ranges assembled
from short reads.
 */
module Ext4Readers {
  import opened Wrappers
  import opened Bits
  import opened Sequences

  const EINVAL: int := 22

  // ----- the device

  /** A disk of `size`-byte sectors.  Sectors in `faults` fail with the code given there, and sectors that are
      not wholly on the disk fail with `rangeError`. */
  datatype Device = Device(disk: seq<Byte>, size: nat, faults: map<nat, int>, rangeError: int)

  /** Where a sector starts. */
  function At(d: Device, sector: nat): nat { sector * d.size }

  lemma AtNext(d: Device, sector: nat)
    ensures At(d, sector + 1) == At(d, sector) + d.size
  {
  }

  predicate Faulty(d: Device, sector: nat)
  {
    sector in d.faults || At(d, sector) + d.size > |d.disk|
  }

  function FaultCode(d: Device, sector: nat): int
  {
    if sector in d.faults then d.faults[sector] else d.rangeError
  }

  /** The first sector of `lo..hi` that cannot be read. */
  function FirstFault(d: Device, lo: nat, hi: nat): (f: Option<nat>)
    ensures f.None? <==> forall s: nat :: lo <= s < hi ==> !Faulty(d, s)
    ensures f.Some? ==> lo <= f.value < hi && Faulty(d, f.value) && forall s: nat :: lo <= s < f.value ==> !Faulty(d, s)
    decreases hi - lo
  {
    if lo >= hi then None else if Faulty(d, lo) then Some(lo) else FirstFault(d, lo + 1, hi)
  }

  /** `dst` holds the disk's bytes from `start` in its first `n` places. */
  ghost predicate Holds(d: Device, start: nat, dst: seq<Byte>, n: nat)
  {
    n <= |dst| && forall i :: 0 <= i < n ==> Same(d, start, dst, i)
  }

  ghost predicate Same(d: Device, start: nat, dst: seq<Byte>, i: int)
    requires 0 <= i < |dst|
  {
    start + i < |d.disk| && dst[i] == d.disk[start + i]
  }

  lemma HoldsAll(d: Device, start: nat, dst: seq<Byte>)
    requires Holds(d, start, dst, |dst|)
    ensures dst == [] || (start + |dst| <= |d.disk| && dst == d.disk[start..start + |dst|])
  {
    if dst != [] {
      assert Same(d, start, dst, |dst| - 1);
      forall i | 0 <= i < |dst|
        ensures dst[i] == d.disk[start..start + |dst|][i]
      {
        assert Same(d, start, dst, i);
      }
    }
  }

  /** Places `at..at + n` of `after` hold the disk's bytes from `from`; the others are as in `before`. */
  ghost predicate Pasted(d: Device, from: nat, before: seq<Byte>, after: seq<Byte>, at: nat, n: nat)
  {
    && |after| == |before| && at + n <= |before| && from + n <= |d.disk|
    && (forall i :: at <= i < at + n ==> after[i] == d.disk[from + (i - at)])
    && (forall i :: 0 <= i < |before| && !(at <= i < at + n) ==> after[i] == before[i])
  }

  lemma HoldsMore(d: Device, start: nat, before: seq<Byte>, after: seq<Byte>, n: nat, k: nat)
    requires Holds(d, start, before, n) && Pasted(d, start + n, before, after, n, k)
    ensures Holds(d, start, after, n + k)
  {
    assert forall i :: 0 <= i < n ==> Same(d, start, before, i) && Same(d, start, after, i);
  }

  /** Fills `buf[at..at + d.size]` from one sector. */
  method ReadSector(d: Device, sector: nat, buf: array<Byte>, at: nat) returns (r: Result<()>)
    requires at + d.size <= buf.Length
    modifies buf
    ensures r == if Faulty(d, sector) then Err(FaultCode(d, sector)) else Ok(())
    ensures r.Err? ==> buf[..] == old(buf[..])
    ensures r.Ok? ==> Pasted(d, At(d, sector), old(buf[..]), buf[..], at, d.size)
  {
    hide At;
    if Faulty(d, sector) {
      return Err(FaultCode(d, sector));
    }
    var from := At(d, sector);
    forall i | at <= i < at + d.size {
      buf[i] := d.disk[from + (i - at)];
    }
    r := Ok(());
  }

  /** The device's default multi-sector read: one sector at a time, stopping at the first failure. */
  method ReadSectors(d: Device, first: nat, buf: array<Byte>) returns (r: Result<()>)
    modifies buf
    ensures d.size == 0 || buf.Length % d.size != 0 ==> r == Err(EINVAL)
    ensures d.size > 0 && buf.Length % d.size == 0 ==>
      var fault := FirstFault(d, first, first + buf.Length / d.size);
      r == if fault.Some? then Err(FaultCode(d, fault.value)) else Ok(())
    ensures r.Ok? ==> Holds(d, At(d, first), buf[..], buf.Length)
  {
    if d.size == 0 || buf.Length % d.size != 0 {
      return Err(EINVAL);
    }
    hide Faulty, At, Pasted, Holds;
    var count := buf.Length / d.size;
    r := ReadChunks(d, first, count, buf);
  }

  method ReadChunks(d: Device, first: nat, count: nat, buf: array<Byte>) returns (r: Result<()>)
    requires d.size > 0 && buf.Length % d.size == 0 && count == buf.Length / d.size
    modifies buf
    ensures var fault := FirstFault(d, first, first + count);
      r == if fault.Some? then Err(FaultCode(d, fault.value)) else Ok(())
    ensures r.Ok? ==> Holds(d, At(d, first), buf[..], buf.Length)
  {
    hide Faulty, At, Pasted, Holds, FirstFault;
    var i: nat := 0;
    var at: nat := 0;
    HoldsNone(d, At(d, first), buf[..]);
    while i < count
      invariant 0 <= i <= count && Offset(i, at, d.size)
      invariant At(d, first + i) == At(d, first) + at
      invariant FirstFault(d, first, first + count) == FirstFault(d, first + i, first + count)
      invariant Holds(d, At(d, first), buf[..], at)
    {
      ChunkFits(i, count, at, buf.Length, d.size);
      FaultStep(d, first + i, first + count);
      ghost var was := buf[..];
      var one := ReadSector(d, first + i, buf, at);
      if one.Err? {
        return one;
      }
      HoldsMore(d, At(d, first), was, buf[..], at, d.size);
      AtNext(d, first + i);
      i := i + 1;
      at := at + d.size;
    }
    ChunksDone(count, at, buf.Length, d.size);
    FaultDone(d, first + count);
    r := Ok(());
  }

  ghost predicate Offset(i: nat, at: nat, size: nat) { at == i * size }

  lemma HoldsNone(d: Device, start: nat, dst: seq<Byte>)
    ensures Holds(d, start, dst, 0) && Offset(0, 0, d.size)
  {
  }

  lemma ChunkFits(i: nat, count: nat, at: nat, len: nat, size: nat)
    requires size > 0 && len % size == 0 && count == len / size && i < count && Offset(i, at, size)
    ensures at + size <= len && Offset(i + 1, at + size, size)
  {
    ChunkSpan(i, count - i - 1, size);
    assert len == size * count;
  }

  lemma ChunkSpan(i: nat, d: nat, size: nat)
    ensures (i + 1 + d) * size == (i + 1) * size + d * size && (i + 1) * size == i * size + size && d * size >= 0
  {
  }

  lemma ChunksDone(count: nat, at: nat, len: nat, size: nat)
    requires size > 0 && len % size == 0 && count == len / size && Offset(count, at, size)
    ensures at == len
  {
  }

  lemma FaultStep(d: Device, lo: nat, hi: nat)
    requires lo < hi
    ensures FirstFault(d, lo, hi) == if Faulty(d, lo) then Some(lo) else FirstFault(d, lo + 1, hi)
  {
    hide Faulty;
  }

  lemma FaultDone(d: Device, hi: nat)
    ensures FirstFault(d, hi, hi) == None
  {
  }

  // ----- unaligned reads

  datatype IoError = InvalidGeometry | AddressOverflow | DeviceError(code: int, sector: nat)

  datatype IoResult = Done | Failed(error: IoError)

  /** The sectors a read touches: whole sectors on the aligned path, otherwise all from the one that holds the
      first byte through the one that holds the last. */
  predicate Aligned(size: nat, start: nat, len: nat)
    requires size > 0
  {
    start % size == 0 && len % size == 0
  }

  function SectorsEnd(size: nat, start: nat, len: nat): nat
    requires size > 0
  {
    if Aligned(size, start, len) then start / size + len / size
    else SaturatingSub(start + len, 1) / size + 1
  }

  /** Success is exactly valid geometry, an end address that fits, and no faulty sector among those touched; the
      aligned path names its first sector in the error whichever one failed. */
  function ReadOutcome(d: Device, scratch: nat, start: nat, len: nat): IoResult
  {
    if d.size == 0 || scratch != d.size then Failed(InvalidGeometry)
    else if start + len >= WORD then Failed(AddressOverflow)
    else
      var fault := FirstFault(d, start / d.size, SectorsEnd(d.size, start, len));
      if fault.None? then Done
      else
        var reported := if Aligned(d.size, start, len) then start / d.size else fault.value;
        Failed(DeviceError(FaultCode(d, fault.value), reported))
  }

  class BlockDeviceReader {
    const device: Device
    const scratch: array<Byte>

    /** The scratch buffer has at least 512 bytes, so smaller sectors are refused. */
    constructor (device: Device)
      ensures this.device == device && fresh(scratch) && scratch.Length == Max(device.size, 512)
    {
      this.device := device;
      scratch := new Byte[Max(device.size, 512)](_ => 0);
    }

    method Read(start: nat, dst: array<Byte>) returns (r: IoResult)
      requires dst != scratch && start < WORD
      modifies dst, scratch
      ensures r == ReadOutcome(device, scratch.Length, start, dst.Length)
      ensures r.Done? ==> Holds(device, start, dst[..], dst.Length)
      ensures r.Done? && dst.Length > 0 ==>
        start + dst.Length <= |device.disk| && dst[..] == device.disk[start..start + dst.Length]
    {
      hide At, Faulty, Holds, FirstFault;
      var size := device.size;
      if size == 0 || scratch.Length != size {
        return Failed(InvalidGeometry);
      }
      if start + dst.Length >= WORD {
        return Failed(AddressOverflow);
      }
      var first := start / size;
      if start % size == 0 && dst.Length % size == 0 {
        var all := ReadSectors(device, first, dst);
        if all.Err? {
          return Failed(DeviceError(all.errno, first));
        }
        AlignedStart(device, start);
        HoldsAll(device, start, dst[..]);
        return Done;
      }
      r := Stitch(start, dst);
      if r.Done? {
        HoldsAll(device, start, dst[..]);
      }
    }

    /** The unaligned path: each sector is read whole into the scratch buffer and its part copied out. */
    method Stitch(start: nat, dst: array<Byte>) returns (r: IoResult)
      requires dst != scratch && device.size > 0 && scratch.Length == device.size
      requires !Aligned(device.size, start, dst.Length)
      modifies dst, scratch
      ensures var fault := FirstFault(device, start / device.size, SectorsEnd(device.size, start, dst.Length));
        r == if fault.None? then Done else Failed(DeviceError(FaultCode(device, fault.value), fault.value))
      ensures r.Done? ==> Holds(device, start, dst[..], dst.Length)
    {
      hide At, Faulty, Holds, Pasted, FirstFault;
      var first := start / device.size;
      var last := SaturatingSub(start + dst.Length, 1) / device.size;
      SpanOfRange(device, start, dst.Length);
      r := StitchSectors(start, dst, first, last);
    }

    method StitchSectors(start: nat, dst: array<Byte>, first: nat, last: nat) returns (r: IoResult)
      requires dst != scratch && scratch.Length == device.size
      requires Span(device, start, dst.Length, first, last)
      modifies dst, scratch
      ensures var fault := FirstFault(device, first, last + 1);
        r == if fault.None? then Done else Failed(DeviceError(FaultCode(device, fault.value), fault.value))
      ensures r.Done? ==> Holds(device, start, dst[..], dst.Length)
    {
      hide At, Faulty, Holds, Pasted, FirstFault, Progress, Span;
      var sector := first;
      SpanStart(device, start, dst[..], first, last);
      while sector <= last
        invariant first <= sector <= last + 1
        invariant FirstFault(device, first, last + 1) == FirstFault(device, sector, last + 1)
        invariant Holds(device, start, dst[..], Progress(At(device, sector), start, dst.Length))
      {
        FaultStep(device, sector, last + 1);
        ghost var was := scratch[..];
        var one := ReadSector(device, sector, scratch, 0);
        if one.Err? {
          return Failed(DeviceError(one.errno, sector));
        }
        PastedHolds(device, At(device, sector), was, scratch[..]);
        SpanWithin(device, start, dst.Length, first, last, sector);
        CopyOut(start, dst, sector);
        AtNext(device, sector);
        sector := sector + 1;
      }
      SpanEnd(device, start, dst.Length, first, last);
      FaultDone(device, last + 1);
      r := Done;
    }

    /** Copies the part of the scratch sector that lies in the requested range. */
    method CopyOut(start: nat, dst: array<Byte>, sector: nat)
      requires dst != scratch && scratch.Length == device.size
      requires At(device, sector) <= start + dst.Length && start <= At(device, sector) + device.size
      requires Holds(device, At(device, sector), scratch[..], device.size)
      requires Holds(device, start, dst[..], Progress(At(device, sector), start, dst.Length))
      modifies dst
      ensures Holds(device, start, dst[..], Progress(At(device, sector) + device.size, start, dst.Length))
    {
      hide At;
      var end := start + dst.Length;
      var sectorStart := At(device, sector);
      var copyStart := Max(start, sectorStart);
      var copyEnd := Min(end, sectorStart + device.size);
      var dstStart := copyStart - start;
      var srcStart := copyStart - sectorStart;
      var len := copyEnd - copyStart;
      forall i | dstStart <= i < dstStart + len {
        dst[i] := scratch[srcStart + (i - dstStart)];
      }
      ghost var n := Progress(sectorStart + device.size, start, dst.Length);
      ghost var before, after, source := old(dst[..]), dst[..], old(scratch[..]);
      forall i | 0 <= i < n
        ensures Same(device, start, after, i)
      {
        if i < dstStart {
          assert Same(device, start, before, i);
        } else {
          var k := srcStart + (i - dstStart);
          assert Same(device, sectorStart, source, k);
          assert after[i] == source[k] && sectorStart + k == start + i;
        }
      }
    }
  }

  /** How much of the range lies before disk address `at`. */
  function Progress(at: nat, start: nat, len: nat): nat
  {
    if at <= start then 0 else Min(len, at - start)
  }

  lemma AlignedStart(d: Device, start: nat)
    requires d.size > 0 && start % d.size == 0
    ensures At(d, start / d.size) == start
  {
  }

  lemma DivBounds(x: nat, size: nat)
    requires size > 0
    ensures x / size * size <= x < x / size * size + size
  {
  }

  lemma AtMonotone(d: Device, a: nat, b: nat)
    requires a <= b
    ensures At(d, a) <= At(d, b)
  {
    assert (b - a) * d.size >= 0;
    assert b * d.size == a * d.size + (b - a) * d.size;
  }

  /** Sectors `first` through `last` cover the range, and each of them meets it. */
  ghost predicate Span(d: Device, start: nat, len: nat, first: nat, last: nat)
  {
    && first <= last
    && At(d, first) <= start <= At(d, first) + d.size
    && At(d, last) <= start + len <= At(d, last) + d.size
  }

  lemma SpanStart(d: Device, start: nat, dst: seq<Byte>, first: nat, last: nat)
    requires Span(d, start, |dst|, first, last)
    ensures first <= last && Holds(d, start, dst, Progress(At(d, first), start, |dst|))
  {
  }

  lemma SpanWithin(d: Device, start: nat, len: nat, first: nat, last: nat, sector: nat)
    requires Span(d, start, len, first, last) && first <= sector <= last
    ensures At(d, sector) <= start + len && start <= At(d, sector) + d.size
  {
    hide At;
    AtMonotone(d, sector, last);
    AtMonotone(d, first, sector);
  }

  lemma SpanEnd(d: Device, start: nat, len: nat, first: nat, last: nat)
    requires Span(d, start, len, first, last)
    ensures Progress(At(d, last + 1), start, len) == len
  {
    hide At;
    AtNext(d, last);
  }

  lemma PastedHolds(d: Device, from: nat, before: seq<Byte>, after: seq<Byte>)
    requires |before| == d.size && Pasted(d, from, before, after, 0, d.size)
    ensures Holds(d, from, after, d.size)
  {
  }

  lemma SpanOfRange(d: Device, start: nat, len: nat)
    requires d.size > 0 && !Aligned(d.size, start, len)
    ensures Span(d, start, len, start / d.size, SaturatingSub(start + len, 1) / d.size)
  {
    var last := SaturatingSub(start + len, 1);
    DivBounds(start, d.size);
    DivBounds(last, d.size);
    if len > 0 {
      DivMonotone(start, last, d.size);
    } else {
      EmptyModulo(d.size);
      var q, r := start / d.size, start % d.size;
      DivUnique(start - 1, d.size, q, r - 1);
    }
  }

  lemma EmptyModulo(size: nat)
    requires size > 0
    ensures 0 % size == 0
  {
  }

  lemma DivMonotone(a: nat, b: nat, size: nat)
    requires size > 0 && a <= b
    ensures a / size <= b / size
  {
    var p, q := a / size, b / size;
    DivBounds(a, size);
    DivBounds(b, size);
    MultipleFar(p - q, size);
    assert (p - q) * size == p * size - q * size;
  }

  // ----- file ranges

  /** Bytes read from a file at a time. */
  const MAX_RANGE_READ: nat := 262_144

  /** A file and the reads it is willing to make: asked at `pos` for `want` bytes, it gives a number of bytes or
      an error. */
  datatype File = File(content: seq<Byte>, decide: (nat, nat) -> Result<nat>)

  /** Short reads are allowed anywhere, but nothing is returned only at the end of the file. */
  ghost predicate ShortReads(f: File)
  {
    forall pos: nat, want: nat :: want > 0 && f.decide(pos, want).Ok? ==>
      f.decide(pos, want).value <= want &&
      (if pos < |f.content| then 0 < f.decide(pos, want).value <= |f.content| - pos else f.decide(pos, want).value == 0)
  }

  function FileRange(content: seq<Byte>, offset: nat, len: nat): seq<Byte>
  {
    content[Min(offset, |content|)..Min(offset + len, |content|)]
  }

  lemma ReadMeans(f: File, pos: nat, want: nat)
    requires ShortReads(f) && want > 0 && f.decide(pos, want).Ok?
    ensures f.decide(pos, want).value <= want
    ensures var n := f.decide(pos, want).value;
      if pos < |f.content| then 0 < n <= |f.content| - pos else n == 0
  {
  }

  lemma RangeStarts(content: seq<Byte>, offset: nat)
    ensures FileRange(content, offset, 0) == []
  {
  }

  lemma RangeLength(content: seq<Byte>, offset: nat, n: nat)
    ensures |FileRange(content, offset, n)| <= n
    ensures offset + n <= |content| ==> |FileRange(content, offset, n)| == n
  {
  }

  lemma RangeGrows(content: seq<Byte>, offset: nat, n: nat, k: nat)
    requires offset + n + k <= |content|
    ensures FileRange(content, offset, n) + content[offset + n..offset + n + k] == FileRange(content, offset, n + k)
  {
  }

  lemma RangeEnds(content: seq<Byte>, offset: nat, n: nat, len: nat)
    requires n <= len && offset + n >= |content|
    ensures FileRange(content, offset, n) == FileRange(content, offset, len)
  {
  }

  /** A read for part of `[pos, pos + len)`, at its start or not past the end of the file, fails with `code`. */
  ghost predicate Fails(f: File, pos: nat, len: nat, code: int)
  {
    exists p: nat, w: nat :: FailsAt(f, pos, len, code, p, w)
  }

  predicate FailsAt(f: File, pos: nat, len: nat, code: int, p: nat, w: nat)
  {
    pos <= p && 0 < w && p + w <= pos + len && (p == pos || p <= |f.content|) && f.decide(p, w) == Err(code)
  }

  /** One chunk, filled by as many reads as it takes.  `eof` says the file ended inside it. */
  method FillChunk(f: File, pos: nat, want: nat) returns (r: Result<seq<Byte>>, eof: bool)
    requires ShortReads(f) && want > 0
    ensures r.Ok? ==> r.value == FileRange(f.content, pos, want) && (eof <==> |r.value| < want)
    ensures r.Err? ==> Fails(f, pos, want, r.errno)
  {
    hide ShortReads, FileRange;
    var chunk := new Byte[want](_ => 0);
    var filled: nat := 0;
    RangeStarts(f.content, pos);
    while filled < want
      invariant 0 <= filled <= want && (filled > 0 ==> pos + filled <= |f.content|)
      invariant chunk[..filled] == FileRange(f.content, pos, filled)
      decreases want - filled
    {
      var read := f.decide(pos + filled, want - filled);
      if read.Err? {
        assert FailsAt(f, pos, want, read.errno, pos + filled, want - filled);
        return Err(read.errno), false;
      }
      ReadMeans(f, pos + filled, want - filled);
      var n := read.value;
      if n == 0 {
        RangeEnds(f.content, pos, filled, want);
        RangeLength(f.content, pos, filled);
        return Ok(chunk[..filled]), true;
      }
      forall i | filled <= i < filled + n {
        chunk[i] := f.content[pos + i];
      }
      assert chunk[..filled + n] == chunk[..filled] + f.content[pos + filled..pos + filled + n];
      RangeGrows(f.content, pos, filled, n);
      filled := filled + n;
    }
    assert chunk[..filled] == chunk[..];
    RangeLength(f.content, pos, want);
    r, eof := Ok(chunk[..]), false;
  }

  /** The requested part of the file, whatever short reads it makes.  `open` and `sought` are the outcomes of
      opening the file and of seeking; a seek refused with EINVAL reads nothing. */
  method ReadRange(f: File, open: Result<()>, sought: Result<()>, offset: nat, len: nat) returns (r: Result<seq<Byte>>)
    requires ShortReads(f)
    ensures len == 0 ==> r == Ok([])
    ensures len > 0 && open.Err? ==> r == Err(open.errno)
    ensures len > 0 && open.Ok? && sought.Err? ==> r == if sought.errno == EINVAL then Ok([]) else Err(sought.errno)
    ensures len > 0 && open.Ok? && sought.Ok? ==> r.Ok? || Fails(f, offset, len, r.errno)
    ensures len > 0 && open.Ok? && sought.Ok? && r.Ok? ==> r.value == FileRange(f.content, offset, len)
  {
    hide ShortReads;
    if len == 0 {
      return Ok([]);
    }
    if open.Err? {
      return Err(open.errno);
    }
    if sought.Err? {
      return if sought.errno == EINVAL then Ok([]) else Err(sought.errno);
    }
    var out: seq<Byte> := [];
    while |out| < len
      invariant |out| <= len && (|out| > 0 ==> offset + |out| <= |f.content|)
      invariant out == FileRange(f.content, offset, |out|)
      decreases len - |out|
    {
      var want := Min(len - |out|, MAX_RANGE_READ);
      var chunk, eof := FillChunk(f, offset + |out|, want);
      if chunk.Err? {
        FailsLater(f, offset, len, |out|, want, chunk.errno);
        return Err(chunk.errno);
      }
      RangeJoins(f.content, offset, |out|, want);
      if eof {
        RangeEnds(f.content, offset, |out| + want, len);
        return Ok(out + chunk.value);
      }
      out := out + chunk.value;
    }
    r := Ok(out);
  }

  lemma FailsLater(f: File, pos: nat, len: nat, done: nat, want: nat, code: int)
    requires done + want <= len && (done > 0 ==> pos + done <= |f.content|) && Fails(f, pos + done, want, code)
    ensures Fails(f, pos, len, code)
  {
    var p: nat, w: nat :| FailsAt(f, pos + done, want, code, p, w);
    assert FailsAt(f, pos, len, code, p, w);
  }

  lemma RangeJoins(content: seq<Byte>, offset: nat, n: nat, k: nat)
    ensures FileRange(content, offset, n) + FileRange(content, offset + n, k) == FileRange(content, offset, n + k)
    ensures |FileRange(content, offset + n, k)| <= k
    ensures |FileRange(content, offset + n, k)| < k ==> offset + n + k > |content|
    ensures k > 0 && |FileRange(content, offset + n, k)| == k ==> offset + n + k <= |content|
  {
  }
}
