/** The last part of `load_elf_images`: the stack is mapped, its image is built and copied in, and a program that reads
its memory from the stack pointer on finds its arguments.
 */
module ProgramStart {
  import opened Bits
  import opened Sequences
  import opened Wrappers
  import opened Segments
  import opened SegmentGaps
  import opened SegmentFrames
  import opened CopyPath
  import opened ElfImage
  import opened AddressSpaces
  import PageTable
  import StackLayout
  import InitialStack

  const TOP: nat := InitialStack.USER_STACK_TOP
  const SIZE: nat := InitialStack.USER_STACK_SIZE
  const DEFAULT_PROT: nat := 3

  function StackSegment(frame: nat): Segment { Segment(TOP - SIZE, SIZE, DEFAULT_PROT, Owned(frame)) }

  /** `load_elf_images` from the stack on.  `room` says whether the kernel can reserve the zeros. */
  method StartStack(space: AddressSpace, inp: StackLayout.Input, room: bool) returns (r: Result<nat>)
    requires WellFormed(space.mappings) && space.endFrame < WORD && space.nextFrame % PAGE == 0
    requires inp.Below(TOP)
    modifies space`mappings, space`dirty, space`nextFrame, space`phys
    ensures WellFormed(space.mappings) && space.nextFrame % PAGE == 0
    ensures r.Ok? <==> room && old(space.nextFrame) + SIZE <= space.endFrame && inp.Total() <= SIZE
    ensures r.Err? ==> r.errno == ENOMEM
    ensures r.Ok? ==>
      && r.value % 16 == 0 && Inserted(old(space.mappings), space.mappings, StackSegment(old(space.nextFrame)))
      && StackFilled(space.mappings, space.phys, StackSegment(old(space.nextFrame)), r.value, inp)
    ensures r.Ok? && StackLayout.WellFormed(inp) ==> SeesInput(space.mappings, space.phys, r.value, inp)
    ensures old(space.TableCurrent()) ==> space.TableCurrent()
  {
    hide WellFormed, SegmentAt, Inserted, Loaded, Store, FrameBytes, FrameHi, PageOffset, Private, NoOwnedSplit, Copied;
    hide Storable, Unaliased, ElsewhereSame, Backing, SeesInput, Zeros, Padded, StackFilled;
    hide PageTable.Built, Exclusive, OwnedAt;
    hide StackLayout.WellFormed, StackLayout.Input.Image, StackLayout.Input.Total, StackLayout.Input.Below;
    if !room {
      return Err(ENOMEM);
    }
    ghost var s := StackSegment(space.nextFrame);
    StackIsAligned();
    var mapped := space.MapOwned(TOP - SIZE, Zeros(SIZE), DEFAULT_PROT);
    if mapped.Err? {
      return Err(mapped.errno);
    }
    var built := InitialStack.BuildInitialStack(inp, TOP);
    if built.Err? {
      return Err(built.errno);
    }
    var image := built.value;
    ghost var before := space.phys;
    StackIsStorable(space.mappings, before, s, TOP - |image|);
    var written := space.WriteBytes(TOP - |image|, image);
    StackHolds(space.mappings, before, space.phys, s, inp);
    if StackLayout.WellFormed(inp) {
      StackIsSeen(space.mappings, space.phys, s, inp);
    }
    return Ok(TOP - |image|);
  }

  /** The stack segment holds zeros, and from the stack pointer on the image. */
  ghost predicate StackFilled(m: Mappings, phys: nat -> int, s: Segment, sp: int, inp: StackLayout.Input)
    requires inp.Below(TOP)
  {
    var image := inp.Image(TOP);
    sp == TOP - |image| && |image| <= SIZE && Loaded(m, phys, s, Zeros(SIZE - |image|) + image)
  }

  /** Whatever the program reads from the stack pointer to the top of the stack decodes to what `execve` was given. */
  ghost predicate SeesInput(m: Mappings, phys: nat -> int, sp: nat, inp: StackLayout.Input)
    requires inp.Below(TOP)
  {
    && Mapped(m, sp, TOP)
    && forall bytes: StackLayout.Bytes :: sp + |bytes| == TOP && Copied(m, phys, sp, bytes) ==>
      StackLayout.Decode(bytes, sp) == Some(StackLayout.Startup(inp.args, inp.envs, inp.FullAuxv(TOP)))
  }

  lemma StackIsAligned()
    ensures |Zeros(SIZE)| == SIZE && Padded(Zeros(SIZE)) == Zeros(SIZE) && FrameBytes(TOP - SIZE, SIZE) == SIZE
  {
    AlignedFrameBytes(TOP - SIZE, SIZE);
  }

  /** A range of the stack is owned and lies in one segment. */
  lemma StackIsStorable(m: Mappings, phys: nat -> int, s: Segment, lo: nat)
    requires Loaded(m, phys, s, Zeros(SIZE)) && s.start <= lo && s.storage.Owned?
    ensures Storable(m, lo, s.End()) && Unaliased(m, lo, s.End())
  {
    hide Backing, SegmentAt;
    forall x: nat, y: nat | lo <= x < y < s.End()
      ensures Translate(m, x) != Translate(m, y)
    {
      BackingInjective(s, x, y);
    }
  }

  /** The image was stored behind the top of the stack and nowhere else. */
  lemma StackHolds(m: Mappings, before: nat -> int, phys: nat -> int, s: Segment, inp: StackLayout.Input)
    requires inp.Below(TOP) && s.len == SIZE && s.End() == TOP && Loaded(m, before, s, Zeros(SIZE))
    requires var image := inp.Image(TOP);
      && |image| <= SIZE && Copied(m, phys, TOP - |image|, image)
      && ElsewhereSame(m, TOP - |image|, TOP, before, phys)
    ensures StackFilled(m, phys, s, TOP - |inp.Image(TOP)|, inp)
  {
    hide Loaded, Copied, ElsewhereSame, StackLayout.Input.Image;
    ImageStored(m, before, phys, s, inp.Image(TOP));
  }

  lemma ImageStored(m: Mappings, before: nat -> int, phys: nat -> int, s: Segment, image: seq<int>)
    requires |image| <= SIZE && s.len == SIZE && Loaded(m, before, s, Zeros(SIZE))
    requires Copied(m, phys, s.End() - |image|, image)
    requires ElsewhereSame(m, s.End() - |image|, s.End(), before, phys)
    ensures Loaded(m, phys, s, Zeros(SIZE - |image|) + image)
  {
    hide Backing, SegmentAt;
    var sp := s.End() - |image|;
    forall x: nat | s.Contains(x)
      ensures phys(Backing(s, x)) == (Zeros(SIZE - |image|) + image)[x - s.start]
    {
      if x < sp {
        forall y: nat | sp <= y < s.End()
          ensures Translate(m, y) != Backing(s, x)
        {
          BackingInjective(s, x, y);
        }
        assert !Behind(m, sp, s.End(), Backing(s, x));
      } else {
        assert image[x - sp] == phys(Translate(m, x));
      }
    }
  }

  lemma StackIsSeen(m: Mappings, phys: nat -> int, s: Segment, inp: StackLayout.Input)
    requires StackLayout.WellFormed(inp) && inp.Total() <= SIZE && s.len == SIZE && s.End() == TOP && inp.Below(TOP)
    requires StackFilled(m, phys, s, TOP - |inp.Image(TOP)|, inp)
    ensures SeesInput(m, phys, TOP - |inp.Image(TOP)|, inp)
  {
    hide StackLayout.WellFormed, StackLayout.Input.Image, StackLayout.Input.Total, StackLayout.Input.Below;
    hide Loaded, SegmentAt, Copied, Mapped, StackLayout.Decode, StackLayout.Input.FullAuxv;
    InitialStack.ProgramSeesInput(inp);
    var image := inp.Image(TOP);
    var sp: nat := TOP - |image|;
    ImageIsMapped(m, phys, s, image);
    forall bytes: StackLayout.Bytes | sp + |bytes| == TOP && Copied(m, phys, sp, bytes)
      ensures bytes == image
    {
      OnlyImage(m, phys, s, image, bytes);
    }
  }

  lemma ImageIsMapped(m: Mappings, phys: nat -> int, s: Segment, image: seq<int>)
    requires |image| <= SIZE && s.len == SIZE && Loaded(m, phys, s, Zeros(SIZE - |image|) + image)
    ensures Mapped(m, s.End() - |image|, s.End())
  {
    hide Backing, SegmentAt;
  }

  lemma OnlyImage(m: Mappings, phys: nat -> int, s: Segment, image: seq<int>, bytes: seq<int>)
    requires |image| <= SIZE && s.len == SIZE && Loaded(m, phys, s, Zeros(SIZE - |image|) + image)
    requires |bytes| == |image| && Copied(m, phys, s.End() - |image|, bytes)
    ensures bytes == image
  {
    hide Backing, SegmentAt;
    var sp := s.End() - |image|;
    forall i | 0 <= i < |image|
      ensures bytes[i] == image[i]
    {
      assert SegmentAt(m, sp + i) == Some(s) && bytes[sp + i - sp] == phys(Translate(m, sp + i));
    }
  }
}
