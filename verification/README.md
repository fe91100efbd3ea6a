# Whuse kernel: verified models

Whuse is a small Unix-like kernel written in Rust. This project models the parts of it whose correctness is hardest to
see by reading, and proves what they are for:

- **Buddy heap** (`BuddyBlocks`, `BuddyLists`, `BuddyHeap`): the RISC-V global allocator, with its intrusive free
  lists in raw memory. `BuddyLists` is the allocator over sequences of addresses; `BuddyHeap.Heap` is the code over
  link words and refines it.
- **Address spaces** (`Segments`, `SegmentCuts`, `SegmentGaps`, `SegmentFrames`, `ElfImage`, `CopyPath`,
  `AddressSpace`): the map of segments, its edits, the gap search, who shares frames, image loading and the kernel's
  copy path.
- **Page tables** (`Sv39`, `PageTree`, `PageTable`): the Sv39 builder against the hardware walk.
- **Initial stack** (`StackLayout`, `InitialStack`, `ProgramStart`): what `execve` lays out and copies into the new
  address space against what a program decodes from its memory.
- **Processes** (`ProcessForest`, `ProcessRuns`, `ProcessZombies`, `ProcessTable`): the forest of thread groups,
  waiting, reaping, stranded zombies and the subtree kill.
- **Futex queues** (`FutexQueues`), **descriptor aliases** (`FdAlias`, `FdFork`), **scheduler** (`SchedulerRuns`,
  `WaitRuns`, `Scheduler`), **DMA arena** (`DmaArena`), **pipes** (`Pipe`), **raw IPv6 checksum** (`Checksum`), **ext4
  readers** (`Ext4Reader`).

`Bits`, `Sequences`, `Ordered` and `Wrappers` are shared vocabulary: 64-bit words as digit strings, bytes, the key
order of a `BTreeMap`, and option and result types.

State that the kernel updates in place is a class whose methods carry the kernel's loops. Each method is proved
against a function on values, and the theorems about whole runs are proved about those functions. Machine integers are
unbounded integers with wrap-around, saturation and overflow checks written out where the code has them.

What the environment decides is a parameter: the address the allocator gives a new table page (any free page), the
error of a clone budget or of copying an address space, whether the kernel can reserve a buffer, the disk's contents
and faults, how many bytes a file read returns, the outcome of opening and seeking, and the offset at which a handle
is left by I/O.

## Where the code differs from what one would expect

Each has its exact condition and an input, a run or a clause that shows it.

- An owned segment sliced at another page keeps its frame base, so its surviving addresses move to other bytes
  (`Segments.SliceBacking`, `Segments.OwnedSliceMoves`), and two slices of one segment share frames
  (`SegmentFrames.EditSharesIff`, `SegmentFrames.UnmapMiddleShares`).
- A segment that fills a page in part is mapped for the whole page: the hardware translates the rest of the page,
  which the kernel's copy path refuses with EFAULT (`PageTable.TouchedWalk`).
- A write-only protection becomes the reserved page-table encoding, so the page faults although the kernel can copy to
  it (`PageTable.SegmentLeaf`).
- A page mapped for no access can be read and written, and one mapped for execution alone can be read
  (`PageTable.GrantsIff`, `PageTable.NoAccessIsReadWrite`).
- `init` does not check that its array of lists is long enough: it is exactly when no aligned block of order ORDER
  fits in the heap (`BuddyLists.InitFitsIff`, `BuddyLists.OversizeHeapOverruns`).
- Requeueing futex waiters onto their own queue reorders them (`FutexQueues.RequeueOrder`,
  `FutexQueues.RequeueReorders`).
- Enqueueing a thread that waits elsewhere leaves it in two queues (`FutexQueues.EnqueueKeeps`,
  `FutexQueues.EnqueueDoubles`).
- With two parentless processes, a reaped group's orphans can go to a younger parent
  (`ProcessForest.ReapKeepsOrderIff`, `ProcessRuns.TwoRootsBreakOrder`). The runs of `ProcessRuns` therefore spawn a
  parentless process only into an empty table.
- No path sets the kernel's thread flag, so every thread counts as a child and one exited thread makes its whole group
  collectable (`ProcessRuns.WaitRemovesLiveIff`, `ProcessRuns.WaitCanReapLiveThreads`).
- Reaping reparents live children only, so an exited child of a reaped group is never collected
  (`ProcessZombies.StrandsIff`, `ProcessZombies.StrandedForever`, `ProcessZombies.GrandchildStranded`).
- The exit code is looked up at the group's number, which image replacement by another thread removes
  (`ProcessTables.ReportedIff`, `ProcessTables.ExecLosesCode`).
- A fork copies the descriptors with their offsets where POSIX shares them, so parent and child drift apart at the
  first move of an offset that both have open (`FdFork.ActsSharedIff`, `FdFork.ForkedReadDiverges`).
- `add_fd_from` with a closed source fails after the new descriptor has been added (`FdAlias.FdTable.AddFdFrom`).
- `start` overwrites a running task (`SchedulerRuns.StartKeepsIff`, `SchedulerRuns.StartLosesRunning`), and a waiter
  removed past its queue swallows a wake-up (`WaitRuns.TidyIff`, `WaitRuns.StaleWaiterSwallowsWake`).
- The raw checksum is not checked for an even offset, and loses carries above 131,074 bytes (`Checksums.VerifiesIff`,
  `Checksums.OddStampFails`, `Checksums.ReceiverAcceptsIff`, `Checksums.LongPacketRejected`).

## Model
| member | source | states |
|---|---|---|
| `BuddyBlocks.CanonicalTilingIsUnique` | platform/riscv64-virt/src/main.rs:139-214 | two sets of aligned power-of-two blocks that both tile a range and hold no two buddies are the same set |
| `BuddyBlocks.CoveredInsideOne` | platform/riscv64-virt/src/main.rs:187-213 | an aligned block whose every address is covered by a buddy-free set of blocks lies inside one of them |
| `BuddyLists.GreedyIsCanonical` | platform/riscv64-virt/src/main.rs:139-156 | the blocks `init` carves tile the heap exactly and contain no two buddies |
| `BuddyLists.InitFitsIff` | platform/riscv64-virt/src/main.rs:139-156 | `init` stays within its array of lists if and only if no aligned block of order ORDER fits in the heap |
| `BuddyLists.OversizeHeapOverruns` | platform/riscv64-virt/src/main.rs:139-156 | for every number of lists, a heap that overruns them: one aligned block of that order |
| `BuddyLists.ShortHeapFits` | platform/riscv64-virt/src/main.rs:139-156 | a heap shorter than 2^ORDER meets that condition |
| `BuddyLists.InitKeeps` | platform/riscv64-virt/src/main.rs:139-156 | the initial lists hold exactly the carved blocks, each once, and satisfy the invariant |
| `BuddyLists.AllocKeeps` | platform/riscv64-virt/src/main.rs:158-177 | a successful allocation makes exactly one new live block of the order asked; tiling, disjointness and buddy-freedom are kept; a failure changes nothing |
| `BuddyLists.AllocFailsIff` | platform/riscv64-virt/src/main.rs:158-177 | allocation fails if and only if no aligned range of the size asked is entirely free |
| `BuddyLists.OrderServesLayout` | platform/riscv64-virt/src/main.rs:158-162 | a block of the chosen order is at least as large as the layout, meets its alignment, and the order is the least that does |
| `BuddyLists.DeallocKeeps` | platform/riscv64-virt/src/main.rs:179-214 | a free returns exactly that block's memory and merges until no two free buddies are left |
| `BuddyLists.EveryRunKeepsInv` | platform/riscv64-virt/src/main.rs:139-214 | in every state reached by allocations and matching frees, free and live blocks are aligned, disjoint, cover the heap exactly, and no two free blocks are buddies |
| `BuddyLists.AllFreedIsCanonical` | platform/riscv64-virt/src/main.rs:139-214 | when everything has been freed, in whatever order, the free blocks are exactly those `init` made |
| `BuddyHeap.Heap.Init` | platform/riscv64-virt/src/main.rs:139-156 | rounds to whole words, links the greedy blocks into the lists, and writes no word outside the heap |
| `BuddyHeap.Heap.Push` | platform/riscv64-virt/src/main.rs:120-125 | the pointer becomes the head of its list and its first word the old head; no other word changes |
| `BuddyHeap.Heap.Pop` | platform/riscv64-virt/src/main.rs:127-137 | takes the head off a list, or reports that the list is empty |
| `BuddyHeap.Heap.Alloc` | platform/riscv64-virt/src/main.rs:158-177 | refines list allocation on intrusive lists; no word of a live block and no word outside the heap changes |
| `BuddyHeap.Heap.Unlink` | platform/riscv64-virt/src/main.rs:187-207 | the scan over link words ends, removes the target exactly when it is on the list, and writes only list heads and link words of that list |
| `BuddyHeap.Heap.Dealloc` | platform/riscv64-virt/src/main.rs:179-214 | refines the merging free on intrusive lists; no word of any other live block changes |
| `Segments.UnmapProt` | crates/mm/src/lib.rs:1574-1608 | seen as a map from addresses to protection, unmapping is exactly range removal |
| `Segments.ProtectProt` | crates/mm/src/lib.rs:390-429 | seen the same way, mprotect overrides exactly the mapped addresses of the range |
| `Segments.SliceBacking` | crates/mm/src/lib.rs:1610-1635 | a slice keeps the backing byte of an address always for shared and host storage, and for owned frames if and only if it starts in the page in which the segment starts |
| `Segments.EditBacking` | crates/mm/src/lib.rs:390-429 | which surviving addresses keep their backing byte across an unmap or mprotect, as an if-and-only-if |
| `Segments.OwnedSliceMoves` | crates/mm/src/lib.rs:1610-1635 | a page-aligned unmap of an owned segment after which a surviving address reads another byte |
| `Segments.AlignUpIs` | crates/mm/src/lib.rs:1808-1810 | the mask form of rounding up is the least page multiple not below the value |
| `Segments.AlignDownIs` | crates/mm/src/lib.rs:1812-1814 | the mask form of rounding down is the greatest page multiple not above the value |
| `SegmentCuts.VisitStep` | crates/mm/src/lib.rs:1574-1608 | editing the map at one key of a stale key snapshot moves exactly that segment from not yet edited to edited |
| `AddressSpaces.AddressSpace.UnmapRange` | crates/mm/src/lib.rs:1574-1608 | segments stay non-empty, keyed by start and disjoint; every address holds what range removal leaves; the dirty flag is raised if and only if something was mapped there; EINVAL if and only if the length is zero or the end overflows; a private space stays private if and only if no owned segment is split; a map that changes is marked dirty |
| `AddressSpaces.AddressSpace.Unmap` | crates/mm/src/lib.rs:381-388 | the same with the length rounded up to pages |
| `AddressSpaces.AddressSpace.Mprotect` | crates/mm/src/lib.rs:390-429 | every address holds what a range override leaves, the segments stay well formed, EINVAL exactly as for unmap; a private space stays private if and only if no owned segment reaches across an end of the range; a map that changes is marked dirty |
| `AddressSpaces.AddressSpace.constructor` | crates/mm/src/lib.rs:218-235 | a new space maps nothing, is dirty, starts its searches at the base for mappings and is well formed and private |
| `AddressSpaces.AddressSpace.Token` | crates/mm/src/lib.rs:237-244 | rebuilds only a dirty space, and in every case leaves a table that is the one the mappings call for and at whose root the hardware agrees with the segment list; with the marks every edit makes, a clean space always has a current table |
| `AddressSpaces.VacantEditSame` | crates/mm/src/lib.rs:1574-1608 | unmapping a range that holds nothing leaves the very same map, so nothing needs marking |
| `AddressSpaces.AddressSpace.InsertSegment` | crates/mm/src/lib.rs:966-974 | afterwards the segment's addresses hold the segment and all others what they held; past the end of the address space the map is only extended, or EINVAL |
| `SegmentGaps.FirstOverlapEnd` | crates/mm/src/lib.rs:1546-1556 | the end of the first segment in key order that meets the range; nothing only if none does |
| `SegmentGaps.SkipStep` | crates/mm/src/lib.rs:245-268 | skipping past an overlapping segment skips no page-aligned gap and leaves fewer segments ending above the cursor |
| `SegmentGaps.InsertedIntoGap` | crates/mm/src/lib.rs:966-974 | an insertion where nothing is mapped evicts nothing |
| `AddressSpaces.AddressSpace.FindGap` | crates/mm/src/lib.rs:245-268 | the search ends and returns the lowest page-aligned gap from the cursor, or ENOMEM only if there is none |
| `AddressSpaces.AddressSpace.AllocPage` | crates/mm/src/lib.rs:91-99 | frames are handed out one after another until the region ends |
| `AddressSpaces.AddressSpace.CreateOwned` | crates/mm/src/lib.rs:1349-1393 | succeeds if and only if the frames for all touched pages are left, takes exactly those and stores the bytes there at the page offset; a failure has taken every whole page that was left |
| `AddressSpaces.AddressSpace.MapOwned` | crates/mm/src/lib.rs:915-931 | inserts one segment over fresh frames that holds exactly the bytes given, or leaves map and memory as they were; keeps the space private if and only if the eviction splits no owned segment; a map that changes is marked dirty |
| `AddressSpaces.AddressSpace.MapAnonymous` | crates/mm/src/lib.rs:245-268 | succeeds if and only if the length is not zero, the zeros can be reserved, the frames are left and a gap is left; then adds one segment of zeros at the lowest gap and takes nothing away; no byte mapped before changes; the space stays private; EINVAL for length zero, ENOMEM otherwise; a page table that was current stays so or the space is marked dirty; the search cursor is left behind the gap found, also when buffer or frames then fail, and where it was when there is no gap or no length |
| `AddressSpaces.AddressSpace.ReserveLoadBias` | crates/mm/src/lib.rs:893-913 | succeeds if and only if the lowest gap for the image's page span is not below the image's own first page; the bias puts the span at that gap; ENOMEM otherwise; the cursor is left behind the gap found, even one below the image |
| `AddressSpaces.AddressSpace.ImageExtent` | crates/mm/src/lib.rs:810-828 | the least address and the greatest end of the headers; ENOEXEC if and only if there is none or one has more file than memory |
| `ElfImage.LoadWithinSpan` | crates/mm/src/lib.rs:797-891 | every biased PT_LOAD header's page range lies in the reserved span |
| `ElfImage.SpanExact` | crates/mm/src/lib.rs:893-902 | the span asked for is that from the page of the lowest address to the end of the page of the highest, and at least a page |
| `ElfImage.FilledReads` | crates/mm/src/lib.rs:837-870 | where a header was loaded, its part of the file is read at its own addresses and zeros in the rest of its pages, under its protection |
| `ElfImage.FrameBytesIs` | crates/mm/src/lib.rs:1349-1393 | the frames taken are exactly those of the pages the bytes touch |
| `AddressSpaces.AddressSpace.MapDynamicImage` | crates/mm/src/lib.rs:797-891 | no earlier mapping changes at any address; each header whose pages no later one shares is one segment over exactly its pages, with its protection, holding zeros, its part of the file, and zeros; succeeds if and only if there is a header, the lowest gap is not below the image, every header is well formed, within the file, not empty and can be buffered, and the frames suffice for all of them together; the cursor is left behind the reserved span; on failure the error is that of the first header that is not in order or finds no frames, with the earlier ones in place; there stays room above every segment, so a second image can follow |
| `ElfImage.FilledStep` | crates/mm/src/lib.rs:838-873 | loading a header keeps the contents of every earlier one that shares no page with it |
| `SegmentFrames.NoSharingIffExclusive` | crates/mm/src/lib.rs:485-491 | for page-aligned owned segments, no owned byte stands behind two addresses if and only if no owned segment reaches into the frames of another segment |
| `SegmentFrames.EditExclusiveIff` | crates/mm/src/lib.rs:1574-1635 | an unmap or mprotect keeps the segments' frames apart if and only if it splits no owned segment |
| `SegmentFrames.EditSharesIff` | crates/mm/src/lib.rs:1574-1635 | with page-aligned ranges: it keeps every owned byte behind one address if and only if it splits no owned segment |
| `SegmentFrames.EditKeepsHosts` | crates/mm/src/lib.rs:1610-1635 | unmap and mprotect leave every host segment backed for exactly its own length |
| `SegmentFrames.InsertExclusiveIff` | crates/mm/src/lib.rs:966-974 | inserting over fresh frames keeps the frames apart if and only if the eviction splits no owned segment |
| `SegmentFrames.UnmapMiddleShares` | crates/mm/src/lib.rs:1574-1635 | unmapping the middle page of three owned pages leaves the outer two on one frame |
| `SegmentFrames.ExclusiveUnaliased` | crates/mm/src/lib.rs:568-616 | in owned memory with frames apart, no two addresses of a range share a byte |
| `CopyPath.FindSegmentMeaning` | crates/mm/src/lib.rs:1637-1654 | a one-byte lookup finds the segment at the address if and only if there is one |
| `CopyPath.WroteMeans` | crates/mm/src/lib.rs:568-616 | after byte-by-byte writing, bytes that share no storage read back, and bytes behind no address of the range are as they were |
| `CopyPath.StorableIffMapped` | crates/mm/src/lib.rs:568-616 | where host ranges cover their segments, what is mapped can be written |
| `AddressSpaces.AddressSpace.ReadBytes` | crates/mm/src/lib.rs:468-513 | succeeds if and only if every address is mapped and the output can be reserved, and returns the byte behind each address across segment boundaries; ENOMEM and EFAULT otherwise |
| `AddressSpaces.AddressSpace.WriteBytes` | crates/mm/src/lib.rs:568-616 | succeeds if and only if every address is mapped and no host range ends before what is written of its segment; in owned memory of a private space, or wherever no two addresses share storage, the bytes read back; bytes behind no address of the range never change; memory is left as writing byte by byte leaves it, and after EFAULT as writing the bytes before the first that cannot be stored; where host ranges cover their segments it succeeds if and only if every address is mapped |
| `Sv39.MakeLeafIs` | crates/mm/src/lib.rs:1256-1258 | the leaf entry as page number, flags and valid bit |
| `Sv39.MakeTableIs` | crates/mm/src/lib.rs:1260-1262 | the pointer entry as page number and valid bit |
| `PageTree.WalkIsLookup` | crates/mm/src/lib.rs:1043-1121 | the three-level walk of section 4.4 of the RISC-V Privileged Architecture v1.12 over a well-formed table finds exactly its leaves |
| `PageTable.Sv39Builder.constructor` | crates/mm/src/lib.rs:1043-1059 | a new builder is one zeroed root table |
| `PageTable.Sv39Builder.EnsureNextTable` | crates/mm/src/lib.rs:1102-1121 | returns the table under a directory entry, made on demand, and 0 exactly over a leaf; no leaf changes |
| `PageTable.Sv39Builder.Map2M` | crates/mm/src/lib.rs:1070-1080 | sets one megapage leaf, or nothing when misaligned |
| `PageTable.Sv39Builder.Map4K` | crates/mm/src/lib.rs:1082-1100 | sets one page leaf, or nothing when misaligned or under a megapage leaf |
| `PageTable.Sv39Builder.MapIdentity2M` | crates/mm/src/lib.rs:1061-1068 | maps exactly the megapages of the range to themselves |
| `PageTable.Sv39Builder.MapSegment` | crates/mm/src/lib.rs:1220-1235 | lays the segment's leaves over the page leaves and touches no other |
| `PageTable.BuildPageTable` | crates/mm/src/lib.rs:991-1012 | when no page is shared by two segments, the built table agrees with the segment list at every address of the lower half: identity windows translate to themselves; in every page a segment touches, beyond its ends too, the walk gives the segment's bytes continued to the page exactly when the segment is congruent, not write-only and not the kernel's own, which for a mapped address is the byte of the kernel's copy path; a page no segment touches faults; a program may make exactly the accesses the protection grants there, and none in a window |
| `PageTable.FillPageTable` | crates/mm/src/lib.rs:991-1012 | the built table is a well-formed tree holding the identity windows and the segments in key order |
| `PageTable.MapSegments` | crates/mm/src/lib.rs:1003-1012 | after the loop the page leaves are those of the segments in key order, the last one laid over a page winning, and the windows are untouched |
| `PageTable.BuiltAgrees` | crates/mm/src/lib.rs:991-1012 | every such tree agrees with the segment list |
| `PageTable.BuiltWalk` | crates/mm/src/lib.rs:991-1012 | every address of an identity window translates to itself whatever the segments are; elsewhere the walk sees the last segment laid over the page |
| `PageTable.TouchedWalk` | crates/mm/src/lib.rs:1220-1235 | in every page that a segment touches, mapped address or not, the walk succeeds if and only if the segment is congruent, not write-only and not the kernel's own range, and then reaches the segment's bytes continued to the page |
| `PageTable.TouchedPermits` | crates/mm/src/lib.rs:1220-1287 | in every page that a segment touches a program's load, store or fetch goes through if and only if the table can express the segment and its protection grants that access |
| `PageTable.WindowMeans` | crates/mm/src/lib.rs:991-1012 | in the identity windows no access of a program goes through, the kernel may load and store, and fetch only from its own range |
| `PageTable.SegmentLeaf` | crates/mm/src/lib.rs:1264-1287 | a segment's leaf translates its page, except that a write-only protection gives the reserved encoding and faults |
| `PageTable.SegmentFlagsMean` | crates/mm/src/lib.rs:1264-1287 | every protection gives a valid, accessed, dirty, non-global page of the program; it is readable unless the protection is write alone, writable if it asks for writing or for nothing, executable if and only if it asks for execution |
| `PageTable.GrantsIff` | crates/mm/src/lib.rs:1264-1287 | a program gets exactly the accesses it asks for if and only if it asks for reading |
| `PageTable.NoAccessIsReadWrite` | crates/mm/src/lib.rs:1283-1285 | a page mapped for no access can be read and written |
| `PageTable.TableRefinesSegments` | crates/mm/src/lib.rs:1220-1235 | for page-disjoint segments the hardware walk reaches the same physical byte as the kernel's copy path if and only if storage and address agree modulo the page, the protection is not write-only and the segment is not the kernel's own range; otherwise it faults |
| `PageTable.CongruentPte` | crates/mm/src/lib.rs:1338-1347 | a leaf exists exactly for congruent storage outside the kernel's own range and names the page of the segment's bytes, over every page the segment touches |
| `PageTable.UntouchedFaults` | crates/mm/src/lib.rs:991-1012 | a user address in a page no segment touches faults |
| `InitialStack.PushBlob` | crates/mm/src/lib.rs:1704-1708 | a blob goes right below the ones before it and its address is returned |
| `InitialStack.BuildInitialStack` | crates/mm/src/lib.rs:1675-1781 | the image is exactly words, padding and strings, a multiple of 16 and within the stack; ENOMEM if and only if it does not fit |
| `StackLayout.StackRoundTrip` | crates/mm/src/lib.rs:1675-1781 | decoding the image from the returned stack pointer by the argc, argv, envp, auxv layout of section 3.4.1 of the System V AMD64 psABI yields the inputs |
| `StackLayout.RandomPointer` | crates/mm/src/lib.rs:1675-1781 | AT_RANDOM points at the sixteen random bytes; the entries before it are the ones given |
| `StackLayout.ExecPointer` | crates/mm/src/lib.rs:1675-1781 | AT_EXECFN points at the executable's name |
| `StackLayout.ImageShape` | crates/mm/src/lib.rs:1675-1781 | the head is filled exactly and the strings end at the top; the padding is zeros |
| `InitialStack.ProgramSeesInput` | crates/mm/src/lib.rs:1675-1781 | for every input that fits, the image is within the stack, leaves the stack pointer 16-aligned, and decodes from there to what `execve` was given |
| `ProgramStart.StartStack` | crates/mm/src/lib.rs:761-785 | succeeds if and only if the zeros can be reserved, the frames are left and the image fits; then one segment holds zeros and, from a 16-aligned stack pointer to its end, the image, and whatever bytes a program reads from the pointer to the top of the stack decode to what `execve` was given; ENOMEM otherwise |
| `ProcessForest.ReapKeepsOrderIff` | crates/proc/src/lib.rs:1941-1966 | reaping keeps every parent's number below its child's if and only if the adopter is older than every live orphan |
| `ProcessForest.ReapKeeps` | crates/proc/src/lib.rs:1941-1966 | reaping a group other than the oldest removes all of it, reparents its live children to the oldest and keeps the forest |
| `ProcessForest.WaitKeeps` | crates/proc/src/lib.rs:845-885 | whoever waits, the oldest process is never collected and the forest is kept |
| `ProcessForest.WaitCollectsIff` | crates/proc/src/lib.rs:845-885 | a wait changes the table if and only if a child of the waiter that the selector names has exited, and then it removes exactly the group of the first such thread in key order |
| `ProcessForest.ForkSeen` | crates/proc/src/lib.rs:926-947 | a fork adds one live thread and changes nothing else; its parent finds it among all, by its identifier and by the parent's own process group, and nobody else finds it |
| `ProcessForest.CloneSeen` | crates/proc/src/lib.rs:949-958 | a wait sees a new thread exactly as it sees the thread that made it |
| `ProcessForest.SpawnSeen` | crates/proc/src/lib.rs:738-746 | a spawned process is found by its parent alone, in the process group named after the parent; without a parent it leads a process group of its own |
| `ProcessForest.ExecSeen` | crates/proc/src/lib.rs:974-1003 | after image replacement the thread is alone in its group, lives and is seen as before; other groups do not change |
| `ProcessForest.ForkKeeps` | crates/proc/src/lib.rs:926-947 | a fork keeps the forest |
| `ProcessForest.CloneKeeps` | crates/proc/src/lib.rs:949-958 | a new thread joins its group under the same parent and keeps the forest |
| `ProcessForest.RefusedKeeps` | crates/proc/src/lib.rs:926-958 | a refused fork or clone uses up an identifier and keeps the forest |
| `ProcessForest.ExecKeeps` | crates/proc/src/lib.rs:974-1003 | image replacement by any thread of a group keeps the forest |
| `ProcessForest.SpawnKeeps` | crates/proc/src/lib.rs:738-746 | the first spawn, and any later one under a group in the table, keep the forest |
| `ProcessRuns.EveryRunKeepsForest` | crates/proc/src/lib.rs:738-1003 | over every run from the empty table, refused forks and direct group kills included: fresh identifiers, parents numbered below children, every live thread's parent group present, one parent per live group, one root |
| `ProcessRuns.KillLeavesNoneLive` | crates/proc/src/lib.rs:1676-1692 | after a subtree kill no group that was in the subtree has a live thread, and a second search finds nothing |
| `ProcessRuns.KillMissesNoChild` | crates/proc/src/lib.rs:1676-1692 | no thread whose parent was in the subtree survives |
| `ProcessRuns.ListedAfterParent` | crates/proc/src/lib.rs:1629-1663 | the breadth-first listing of a forest never puts a group before its parent |
| `ProcessRuns.TwoRootsBreakOrder` | crates/proc/src/lib.rs:1941-1966 | a run with a second parentless process after which a parent's number exceeds its child's |
| `ProcessRuns.WaitCanReapLiveThreads` | crates/proc/src/lib.rs:845-885 | a run after which a wait removes a live thread |
| `ProcessRuns.WaitRemovesLiveIff` | crates/proc/src/lib.rs:845-885 | a wait removes a live thread if and only if the group of the first exited child it finds still has one |
| `ProcessZombies.ReapStrandsIff` | crates/proc/src/lib.rs:1941-1966 | reaping leaves every thread's parent group in the table if and only if the reaped group has no exited child |
| `ProcessZombies.StrandsIff` | crates/proc/src/lib.rs:738-1003 | of all operations, exactly a wait that collects a group with an exited child leaves an exited thread without a parent group |
| `ProcessZombies.StrandedForever` | crates/proc/src/lib.rs:845-885 | a group all of whose threads exited under vanished parents stays in the table over every later run: nobody can collect it |
| `ProcessZombies.GrandchildStranded` | crates/proc/src/lib.rs:845-885 | a run that reaches such a group |
| `ProcessTables.StatusDecodes` | crates/proc/src/lib.rs:873-883 | the status decodes to the low byte of the exit code, or to the signal and its core flag |
| `ProcessTables.ReportedIff` | crates/proc/src/lib.rs:873-883 | after a group exit the wait reports the code if and only if the group's first thread is still in the table or the code is zero |
| `ProcessTables.ThreadExitReports` | crates/proc/src/lib.rs:1448-1499 | when a thread exits its group goes on exactly while another of its threads lives, and no other thread changes; when it was the last, every thread of the group has the code, reported under the same condition |
| `ProcessTables.ForkExitWait` | crates/proc/src/lib.rs:845-885 | a fork, the child's exit and the parent's wait for it report the child's code and leave the table as it was but for the identifier used up |
| `ProcessTables.ExecLosesCode` | crates/proc/src/lib.rs:873-883 | a run after which a child that exits with code 7 is reported as 0 |
| `ProcessTables.ProcessTable.constructor` | crates/proc/src/lib.rs:725-732 | an empty table whose first identifier is 1 |
| `ProcessTables.ProcessTable.Spawn` | crates/proc/src/lib.rs:738-746 | adds a live process under a fresh identifier and makes it current if none was |
| `ProcessTables.ProcessTable.ForkCurrent` | crates/proc/src/lib.rs:926-947 | adds a child of the current group; every failure still uses up an identifier and changes nothing else |
| `ProcessTables.ProcessTable.CloneCurrent` | crates/proc/src/lib.rs:949-958 | adds a thread to the current group; EBADF without a current process |
| `ProcessTables.ProcessTable.ExecCurrent` | crates/proc/src/lib.rs:974-1003 | removes every other thread of the group and makes the caller live again |
| `ProcessTables.ProcessTable.ExitThreadCurrent` | crates/proc/src/lib.rs:1448-1499 | ends the thread, and the whole group if and only if no other thread of it is live |
| `ProcessTables.ProcessTable.ExitGroupCurrent` | crates/proc/src/lib.rs:1501-1542 | ends every thread of the group with the code |
| `ProcessTables.ProcessTable.WaitChild` | crates/proc/src/lib.rs:845-885 | when a child waited for has exited, the group and status of the first one, which is collected; otherwise the table stays as it was and the answer is (0, 0) if there is a child waited for at all and ECHILD if not |
| `ProcessTables.ProcessTable.Reap` | crates/proc/src/lib.rs:1941-1966 | reparents the live children to the adopter and removes exactly the group |
| `ProcessTables.ProcessTable.FindAdopter` | crates/proc/src/lib.rs:1942-1947 | the group of the first parentless thread in key order, or 1 when there is none |
| `ProcessTables.ProcessTable.ChildIndex` | crates/proc/src/lib.rs:1630-1646 | the index holds exactly the live parent-child pairs, and the root flag says whether the root group is live |
| `ProcessTables.ProcessTable.DescendantGroups` | crates/proc/src/lib.rs:1629-1663 | ends on every table and lists exactly the groups reachable through live children, each once, each after the group it was found from; nothing if the root is not live |
| `ProcessTables.ProcessTable.ForceExitGroup` | crates/proc/src/lib.rs:1887-1933 | ends exactly the threads of one group and reports them in key order with the first one's parent |
| `ProcessTables.ProcessTable.ForceExitSubtree` | crates/proc/src/lib.rs:1676-1692 | ends exactly the live subtree, and the exits read backwards are a breadth-first listing of it, so children exit before parents; each record names the group's threads in key order and the parent of the first |
| `FutexQueues.FutexTable.Enqueue` | crates/proc/src/lib.rs:1384-1389 | appends the thread to the queue once |
| `FutexQueues.FutexTable.Wake` | crates/proc/src/lib.rs:1391-1405 | returns the oldest waiters in order and keeps the rest; an emptied queue is dropped |
| `FutexQueues.FutexTable.RemoveAt` | crates/proc/src/lib.rs:1413-1420 | drops the thread from one queue, and the queue when it is emptied |
| `FutexQueues.FutexTable.Requeue` | crates/proc/src/lib.rs:1422-1446 | wakes the oldest, moves the next to the end of the other queue |
| `FutexQueues.FutexTable.RemoveWaiter` | crates/proc/src/lib.rs:1968-1978 | drops the thread from every queue |
| `FutexQueues.EnqueueKeeps` | crates/proc/src/lib.rs:1384-1389 | the queues stay sound if and only if the thread waits at no other address |
| `FutexQueues.EnqueueDoubles` | crates/proc/src/lib.rs:1384-1389 | a thread that waits elsewhere ends up in two queues |
| `FutexQueues.RequeueConserves` | crates/proc/src/lib.rs:1422-1446 | a requeue, onto the same queue too, loses and doubles nobody and leaves every other waiter where it was |
| `FutexQueues.RequeuedQueues` | crates/proc/src/lib.rs:1422-1446 | exactly what every queue holds after a requeue |
| `FutexQueues.RequeueOrder` | crates/proc/src/lib.rs:1422-1446 | two waiters keep their order if and only if it is not a requeue onto the same queue that moves the earlier and leaves the later |
| `FutexQueues.RequeueReorders` | crates/proc/src/lib.rs:1422-1446 | requeueing one of three waiters onto their own queue puts it last |
| `FutexQueues.EnqueueIsLast` | crates/proc/src/lib.rs:1384-1389 | a thread that starts to wait is behind everyone who waits there, keeps its place when it starts again, and moves nobody |
| `FutexQueues.WokeInOrder` | crates/proc/src/lib.rs:1391-1405 | of two threads that wait at one address no operation wakes the later and leaves the earlier |
| `FutexQueues.StepKeepsOrder` | crates/proc/src/lib.rs:1384-1446 | every operation but a requeue of a queue onto itself keeps the order of threads that go on waiting together |
| `FutexQueues.RemovedKeeps` | crates/proc/src/lib.rs:1968-1978 | dropping a thread keeps all other waiters and soundness |
| `FutexQueues.EveryRunSound` | crates/proc/src/lib.rs:1384-1446 | in every run each thread waits in at most one place and no empty queue is kept |
| `FdAlias.LowestFrom` | crates/proc/src/lib.rs:282-290 | the lowest free descriptor |
| `FdAlias.FlatLeader` | crates/proc/src/lib.rs:327-341 | on a flat table the sixteen-step walk reaches the representative of the class: the descriptor's entry, or itself when it has none |
| `FdAlias.LeaderWalk` | crates/proc/src/lib.rs:327-341 | on any table the walk follows the entries until one that leads itself or has none, and gives up after sixteen steps |
| `FdAlias.OpenRefines` | crates/proc/src/lib.rs:282-290 | opening stands for a new open file description of that file at that offset |
| `FdAlias.DupRefines` | crates/proc/src/lib.rs:292-298 | duplication stands for sharing the source's description: its file and its offset |
| `FdAlias.SeekRefines` | crates/proc/src/lib.rs:353-372 | an offset pushed to the class is the description's new offset |
| `FdAlias.ReleadKeepsClasses` | crates/proc/src/lib.rs:300-319 | handing a class to its heir keeps the aliases flat and moves no other descriptor between classes, whether or not the closed one had an entry |
| `FdAlias.CloseRefines` | crates/proc/src/lib.rs:300-319 | closing any descriptor, the leader included, leaves every other with its description |
| `FdAlias.RefinesAgrees` | crates/proc/src/lib.rs:343-372 | in a table that stands for descriptions every member of a class is at the leader's offset |
| `FdAlias.InstalledRefines` | crates/kernel-core/src/lib_riscv.inc.rs:2573-2577 | descriptors put in without alias entries, as the first process gets its three, each stand for a description of their own |
| `FdAlias.RunRefines` | crates/proc/src/lib.rs:282-372 | every run from a table that stands for descriptions ends in one that stands for what POSIX makes of them |
| `FdAlias.EveryRunRefines` | crates/proc/src/lib.rs:282-372 | after every run from a process with no descriptors, or with any that the kernel put in without entries, the alias table stands for exactly the shared open file descriptions POSIX prescribes |
| `FdAlias.EveryRunShares` | crates/proc/src/lib.rs:282-372 | after every such run leaders are open, two descriptors have one leader if and only if duplication relates them, and then they agree on the offset; they name one file, the one their description was opened with |
| `FdAlias.FdTable.AddFd` | crates/proc/src/lib.rs:282-290 | the lowest free descriptor, leading itself |
| `FdAlias.FdTable.AliasLeader` | crates/proc/src/lib.rs:327-341 | the leader of an open descriptor after at most sixteen steps, EBADF otherwise |
| `FdAlias.FdTable.SyncFrom` | crates/proc/src/lib.rs:343-351 | fetches the leader's offset; EBADF exactly when descriptor or leader is closed |
| `FdAlias.FdTable.SyncTo` | crates/proc/src/lib.rs:353-372 | every member of the class gets the offset and nothing else changes |
| `FdAlias.FdTable.CloseFd` | crates/proc/src/lib.rs:300-319 | removes the descriptor and makes the smallest follower the leader of the class |
| `FdAlias.FdTable.AddFdFrom` | crates/proc/src/lib.rs:292-298 | an open source is shared, and with a clone of its handle the new descriptor names its file; a closed one gives EBADF but the new descriptor stays, unless it is the source's own number |
| `FdAlias.FdTable.DupOntoFd` | crates/syscall/src/lib.rs:2860-2877 | `dup3`: closes the target, then shares the source, even when the target led the source's class; the target then names the source's file |
| `FdAlias.FdTable.DupFrom` | crates/syscall/src/lib.rs:2898-2911 | `fcntl` duplication onto the lowest free descriptor from a floor; it names the source's file |
| `FdAlias.FdTable.Transfer` | crates/syscall/src/lib.rs:1479-1494 | a sync-bracketed call is given the shared offset and leaves the whole class at the offset it moves to, or nothing changed when it fails |
| `FdFork.ForkRefines` | crates/proc/src/lib.rs:490-548 | right after a fork both tables stand for the parent's descriptions |
| `FdFork.ActsSharedIff` | crates/proc/src/lib.rs:490-548 | after one process acts, both tables still stand for the shared descriptions if and only if it did not move the offset of one the other has open |
| `FdFork.TurnSharedIff` | crates/proc/src/lib.rs:490-548 | the same whichever process acts |
| `FdFork.StillShares` | crates/proc/src/lib.rs:490-548 | over every run of the two processes that moves no shared offset both tables stand for the shared descriptions |
| `FdFork.ForkedReadDiverges` | crates/proc/src/lib.rs:519-520 | a fork and one read after which they do not |
| `SchedulerRuns.StepKeeps` | crates/task/src/lib.rs:98-287 | each operation keeps every task in exactly one of running, ready and blocked, with the state that says which, and adds or drops exactly what it should |
| `SchedulerRuns.EveryRunPartitions` | crates/task/src/lib.rs:98-287 | so does every run of a new scheduler with fresh identifiers that starts only when nothing runs |
| `SchedulerRuns.StartKeepsIff` | crates/task/src/lib.rs:110-112 | starting loses a task if and only if one is running and another is ready |
| `SchedulerRuns.StartLosesRunning` | crates/task/src/lib.rs:110-112 | a legal run of two spawns and two starts that loses the first task |
| `SchedulerRuns.StepWaits` | crates/task/src/lib.rs:98-287 | no operation moves a ready task back, and every dispatch moves it forward |
| `SchedulerRuns.BoundedWaiting` | crates/task/src/lib.rs:98-287 | a task with k before it runs within k + 1 dispatches, whatever is spawned, woken, blocked or removed in between |
| `WaitRuns.TidyIff` | crates/task/src/lib.rs:150-278 | every registered waiter stays blocked, and registered once, if and only if no registered waiter is woken, removed or ended past its queue |
| `WaitRuns.EveryQuietRunTidy` | crates/task/src/lib.rs:45-278 | over every such run from the start, every registered waiter is blocked and registered once |
| `WaitRuns.WakeQueueInOrder` | crates/task/src/lib.rs:194-203 | waking a queue makes exactly its waiters ready, the oldest first |
| `WaitRuns.ServedInOrder` | crates/task/src/lib.rs:188-203 | over every such run, the waiter at place k still waits n places further up after n <= k wake-ups on its queue, and has been made ready after more |
| `WaitRuns.StaleWaiterSwallowsWake` | crates/task/src/lib.rs:188-192 | a legal run in which two tasks block on a queue and the first is removed, after which a wake-up makes nobody ready |
| `Schedulers.WaitQueue.Register` | crates/task/src/lib.rs:45-53 | a task is registered once and keeps its place |
| `Schedulers.WaitQueue.PopFirst` | crates/task/src/lib.rs:55-57 | the oldest waiter |
| `Schedulers.WakeAllEmpties` | crates/task/src/lib.rs:177-186 | waking everything leaves nothing blocked |
| `Schedulers.Scheduler.constructor` | crates/task/src/lib.rs:82-90 | nothing is ready, running or blocked |
| `Schedulers.Scheduler.SpawnTask` | crates/task/src/lib.rs:98-108 | the new task goes to the back of the queue; its identifier is returned and later ones are larger |
| `Schedulers.Scheduler.CreateWaitQueue` | crates/task/src/lib.rs:92-96 | an empty queue under a fresh number |
| `Schedulers.Scheduler.Start` | crates/task/src/lib.rs:110-112 | dispatches the front of the queue and names it |
| `Schedulers.Scheduler.ExitCurrent` | crates/task/src/lib.rs:132-136 | drops what was running and dispatches nothing |
| `Schedulers.Scheduler.ScheduleNext` | crates/task/src/lib.rs:280-286 | dispatches the front of the queue |
| `Schedulers.Scheduler.EnsureCurrent` | crates/task/src/lib.rs:114-120 | something runs unless nothing is ready, and the result names it |
| `Schedulers.Scheduler.YieldNow` | crates/task/src/lib.rs:122-130 | the running task goes to the back before the front is dispatched |
| `Schedulers.Scheduler.BlockCurrent` | crates/task/src/lib.rs:159-166 | the running task is blocked and the next dispatched |
| `Schedulers.Scheduler.BlockCurrentOn` | crates/task/src/lib.rs:150-157 | the same, with exactly that task registered in the wait queue |
| `Schedulers.Scheduler.WakeTask` | crates/task/src/lib.rs:168-175 | a blocked task goes to the back of the queue; the result says whether it was blocked |
| `Schedulers.Scheduler.WakeAllBlocked` | crates/task/src/lib.rs:177-186 | wakes all in key order and counts them |
| `Schedulers.Scheduler.WakeOne` | crates/task/src/lib.rs:188-192 | pops the oldest waiter and wakes it if it is blocked |
| `Schedulers.Scheduler.WakeAll` | crates/task/src/lib.rs:194-203 | wakes the waiters in order, empties the queue and counts those that were blocked |
| `Schedulers.Scheduler.RemoveTask` | crates/task/src/lib.rs:242-252 | takes one task out wherever it is and says whether it was anywhere |
| `Schedulers.Scheduler.ExitGroup` | crates/task/src/lib.rs:254-278 | takes out exactly what belongs to the process, keeps the order of the rest, and counts what it took |
| `DmaArenas.BitIsSetMeans` | crates/hal-virtio/src/lib.rs:344-350 | the mask test is membership in the page set |
| `DmaArenas.WithPageMeans` | crates/hal-virtio/src/lib.rs:352-362 | setting or clearing one bit adds or removes exactly one page |
| `DmaArenas.FirstFit` | crates/hal-virtio/src/lib.rs:93-122 | the lowest start of a free run, or nothing if and only if there is none |
| `DmaArenas.EveryRunSound` | crates/hal-virtio/src/lib.rs:93-141 | in every run of allocations and matching frees on a new arena the live ranges are in bounds and disjoint and the bitmap marks exactly their pages |
| `DmaArenas.FreeUndoesAlloc` | crates/hal-virtio/src/lib.rs:93-141 | a free restores the state before its allocation |
| `DmaArenas.DmaArena.constructor` | crates/hal-virtio/src/lib.rs:86-91 | a new arena has every page free |
| `DmaArenas.DmaArena.SetRange` | crates/hal-virtio/src/lib.rs:352-362 | sets or clears exactly the pages of the range |
| `DmaArenas.DmaArena.Alloc` | crates/hal-virtio/src/lib.rs:93-122 | returns the lowest free run, marks exactly it and zeroes exactly its bytes; None if and only if no pages are asked, the bitmap is too short, or no run is free |
| `DmaArenas.DmaArena.Dealloc` | crates/hal-virtio/src/lib.rs:124-141 | clears exactly the pages named, or returns -1 and changes nothing if and only if the range is not a page-aligned part of the arena |
| `Pipes.CreatedKeepsLaw` | crates/vfs/src/lib.rs:967-986 | a new pipe satisfies the stream law |
| `Pipes.StepKeepsLaw` | crates/vfs/src/lib.rs:2124-2375 | each write, read, clone and drop keeps the stream law |
| `Pipes.EveryRunKeepsLaw` | crates/vfs/src/lib.rs:2124-2375 | over every interleaving, bytes read followed by the buffer are the bytes written, and the counters are the numbers of live handles of each end |
| `Pipes.DropNeverSaturates` | crates/vfs/src/lib.rs:2208-2212 | dropping a live handle finds its counter positive |
| `Pipes.ReadIsNext` | crates/vfs/src/lib.rs:2285-2303 | a read returns the oldest unread bytes, as many as asked or as there are |
| `Pipes.WriteReports` | crates/vfs/src/lib.rs:2363-2375 | a write reports exactly the number of bytes that entered the stream, all of them at its end; it fails if and only if it goes through a read handle (EINVAL) or has something to write and no read handle lives (EPIPE), and then nothing changes |
| `Pipes.ReadReports` | crates/vfs/src/lib.rs:2285-2303 | a read reports exactly the bytes that left the stream, from its front; it fails if and only if it goes through a write handle (EINVAL) or everything has been read and a write handle lives (EAGAIN), and then nothing changes |
| `Pipes.EofIff` | crates/vfs/src/lib.rs:2285-2303 | a read for at least one byte returns nothing if and only if everything written has been read and no write handle lives |
| `Pipes.EofIsFinal` | crates/vfs/src/lib.rs:2285-2303 | once at end of file, every later state is at end of file |
| `Pipes.PollReadIff` | crates/vfs/src/lib.rs:2443 | the read end polls ready if and only if a read would not return EAGAIN |
| `Pipes.PollWriteIff` | crates/vfs/src/lib.rs:2464 | the write end polls ready if and only if a non-empty write would not return EPIPE |
| `Pipes.PipeNode.constructor` | crates/vfs/src/lib.rs:2515-2525 | an empty buffer with one reader and one writer |
| `Pipes.PipeNode.ReadObject` | crates/vfs/src/lib.rs:2285-2303 | the popping loop returns and removes the same prefix; EINVAL on the write end, EAGAIN while writers live |
| `Pipes.PipeNode.WriteObject` | crates/vfs/src/lib.rs:2363-2375 | all bytes or none: EINVAL on the read end, EPIPE without readers |
| `Pipes.PipeNode.AdjustRefcount` | crates/vfs/src/lib.rs:2124-2141 | one counter moves by one, saturating |
| `Checksums.ChecksumAdd` | crates/vfs/src/lib.rs:2700-2709 | the loop computes the sum of the big-endian words, an odd last byte as a high half, modulo 2^32 |
| `Checksums.ChecksumFinish` | crates/vfs/src/lib.rs:2711-2716 | the fold ends, and the result completes the sum to a multiple of 65535 |
| `Checksums.FoldIsNorm` | crates/vfs/src/lib.rs:2711-2716 | folding gives the representative modulo 65535, zero only for zero |
| `Checksums.FoldCongruent` | crates/vfs/src/lib.rs:2711-2716 | folding keeps the residue modulo 65535 |
| `Checksums.OnesSumIsNorm` | crates/vfs/src/lib.rs:2700-2716 | the end-around-carry sum of section 4.1 of RFC 1071 is that representative of the exact sum |
| `Checksums.PseudoSumIs` | crates/vfs/src/lib.rs:2690-2695 | what the pseudo-header contributes |
| `Checksums.PseudoLayout` | crates/vfs/src/lib.rs:2688-2698 | the pseudo-header of section 8.1 of RFC 8200: both addresses ::1, the length as a big-endian 32-bit number, three zero bytes, the next header |
| `Checksums.RawChecksum` | crates/vfs/src/lib.rs:2688-2698 | pseudo-header and packet summed, folded and complemented |
| `Checksums.VerifiesIff` | crates/vfs/src/lib.rs:527-536 | for packets of every length, recomputing the checksum after insertion gives 0 if and only if the offset is even or the two checksum bytes are equal |
| `Checksums.OddStampFails` | crates/vfs/src/lib.rs:527-536 | four bytes stamped at offset 1 fail both checks |
| `Checksums.ReceiverAcceptsIff` | crates/vfs/src/lib.rs:527-536 | a receiver following section 8.1 of RFC 8200 accepts a stamp at any offset if and only if the carries lost from 32 bits and, at an odd offset, 255 times the difference of the checksum bytes cancel modulo 65535; without lost carries, if and only if the offset is even or the bytes are equal |
| `Checksums.ShortPacketsFit` | crates/vfs/src/lib.rs:527-536 | no carry is lost up to 131,074 bytes, so there the receiver accepts exactly what the kernel's own check accepts |
| `Checksums.LongPacketRejected` | crates/vfs/src/lib.rs:527-536 | a packet of 131,075 bytes that the kernel's own check passes and a receiver rejects |
| `Checksums.StampPacket` | crates/vfs/src/lib.rs:527-537 | EINVAL if and only if the field does not fit; only the two field bytes change; the stamped packet verifies |
| `Ext4Readers.ReadSectors` | crates/hal-api/src/lib.rs:136-145 | fills the buffer with consecutive sectors, or returns the code of the first that fails; EINVAL for a partial sector |
| `Ext4Readers.BlockDeviceReader.constructor` | crates/fs-ext4/src/lib.rs:234-241 | the scratch buffer has the sector size, and at least 512 bytes |
| `Ext4Readers.BlockDeviceReader.Read` | crates/fs-ext4/src/lib.rs:245-299 | success fills dst with exactly disk[start..start+len] on the aligned and the stitched path; it succeeds if and only if the geometry is valid, the end address fits and no touched sector fails; each error as the code reports it |
| `Ext4Readers.BlockDeviceReader.Stitch` | crates/fs-ext4/src/lib.rs:278-297 | the stitched path touches every sector from the first byte's to the last byte's and reports the first that fails |
| `Ext4Readers.BlockDeviceReader.CopyOut` | crates/fs-ext4/src/lib.rs:289-296 | one sector extends the filled prefix by exactly its part of the range |
| `Ext4Readers.FillChunk` | crates/fs-ext4/src/lib.rs:117-129 | short reads fill a chunk with consecutive file bytes, ending early only at the end of the file |
| `Ext4Readers.ReadRange` | crates/fs-ext4/src/lib.rs:100-132 | returns file[offset..min(offset+len,size)] whatever short reads the file makes; the errors of opening, seeking and reading as the code maps them; an error is one that a read for part of the range gave |

## Left out

- AddressSpaces.AddressSpace.Unmap: assumes the length can be rounded up to a page without overflow.
- AddressSpaces.AddressSpace.Mprotect: the same.
- AddressSpaces.AddressSpace.ReserveLoadBias: the same for the end of the image.
- AddressSpaces.AddressSpace.FindGap: assumes that rounding the end of a segment up to a page does not overflow.
- AddressSpaces.AddressSpace.CreateOwned: assumes a page-aligned frame region and a length that leaves two pages below 2^64.
- AddressSpaces.AddressSpace.MapOwned: the same, and a range that ends below 2^64.
- AddressSpaces.AddressSpace.MapAnonymous: assumes lengths that leave three pages below 2^64, and a page-aligned frame region.
- AddressSpaces.AddressSpace.MapDynamicImage: parsing the ELF headers, looking up the program-header table after loading and the ET_EXEC case are not modelled; the contents are stated for a space whose free frames are nobody's.
- PageTable.BuildPageTable: assumes segments in the lower half with storage in physical memory.
- PageTable.FillPageTable: the same.
- PageTable.Sv39Builder.MapSegment: the same for its segment.
- PageTable.Sv39Builder.Map4K: assumes an address in the lower half.
- PageTable.Sv39Builder.Map2M: assumes an address in the lower half and a megapage without a page table; the builder maps megapages first.
- PageTable.Sv39Builder.MapIdentity2M: whole megapages only; the kernel's two ranges are.
- InitialStack.BuildInitialStack: assumes strings shorter than the address of the stack top; longer ones underflow a pointer in the code.
- BuddyHeap.Heap.Init: assumes backed memory, a start above 0 and no block too large for the lists; the code has no check for them.
- BuddyHeap.Heap.Dealloc: only for blocks that are live under a layout of the same order; the code trusts its caller.
- ProcessTables.ProcessTable.ExitThreadCurrent: the robust futex list, the clear-child-tid write, closing descriptors, clearing memory, futex queues and the signal to the parent are not modelled.
- ProcessTables.ProcessTable.ExitGroupCurrent: the same.
- ProcessTables.ProcessTable.ForceExitGroup: the same.
- ProcessTables.ProcessTable.ForceExitSubtree: the same.
- ProcessTables.ProcessTable.Reap: the removal of the reaped threads from the futex queues is modelled on its own, in `FutexQueues.FutexTable.RemoveWaiter`.
- ProcessTables.ProcessTable.ExecCurrent: the close-on-exec pruning, which leaves stale alias entries, the futex queues and a failing address-space copy are not modelled.
- ProcessRuns.EveryRunKeepsForest: assumes that threads act only while they live, and one parentless spawn.
- AddressSpaces.AddressSpace.Token: assumes segments in the lower half with storage in physical memory; agreement is stated when no page is shared by two segments and no buffer lies in the first page.
- ProgramStart.StartStack: assumes strings shorter than the address of the stack top and a page-aligned frame region; loading the program and its interpreter before it is `MapDynamicImage`.
- FdAlias.DupRefines: a handle's flags are not modelled; its path and pipe end stand with the file.
- FdAlias.FdTable.AddFdFrom: assumes a flat table (leaders open, none following another), which every run keeps.
- FdAlias.FdTable.DupOntoFd: the same.
- FdAlias.FdTable.DupFrom: the same.
- FdAlias.FdTable.Transfer: assumes a flat table whose classes agree on the offset, which every run keeps.
- DmaArenas.DmaArena.Dealloc: assumes the bitmap reaches the end of the storage; otherwise the code panics. The product of pages and page size does not wrap.
- Pipes.EveryRunKeepsLaw: anonymous pipes only; a named pipe's handles have no end. Fewer than 2^64 handles.
- Ext4Readers.BlockDeviceReader.Read: uses the device trait's default multi-sector read; a sector that ends at 2^64 is not modelled.
- The LoongArch heap, whose free does not merge, and the LoongArch page-table builder, which repeats the Sv39 argument.
- `brk`, fixed mappings, shared and host mappings, `clone_private`, and isolation between address spaces, which share one frame region.
- Signals, sessions, changes of process group, timers and credentials of processes.
- Locks: each operation is one step.
- The file-system tree, sockets, epoll, eventfd and the block cache.
- The system-call dispatcher, drivers, interrupt and boot code.
