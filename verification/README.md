# A verified model of the hos kernel's algorithmic core

hos is a small 32-bit x86 kernel written in C. This project models, in Dafny, the parts of it
whose correctness rests on an invariant that no single function shows, and proves those
invariants for every input, every run or every reachable state:

- **Dynamic timers** (`TimerWheelModel`, `TimerWheelState`, `TimerWheel`, `TimerRuns`, `TimerList`,
  `TimerRefinement`). The five-level timing wheel and the plain list that the same source file
  keeps as its alternative. A timer runs exactly once, in the tick it is due and in a known order;
  the wheel runs what the list runs, and the same timers exactly when the scan of the list misses
  none.
- **Kernel heap** (`HeapModel`, `KernelHeap`, `HeapRuns`). Headers in memory, the block list, the
  free list, best fit, splitting, three-way joining and growth, refined by a heap that is an exact
  tiling of an address range.
- **Frames and paging** (`FrameBitmap`, `PageTables`). The frame bitmap with its word-skipping
  search, and the two-level page tables as a flat map from pages to frames (32-bit paging,
  section 4.3 of the Intel Software Developer's Manual, volume 3A).
- **ext2** (`Ext2Tree`, `Ext2Read`, `Ext2Inodes`, `Ext2Alloc`). Index trees, reads of byte ranges,
  inode records and block allocation.
- **Paths and procfs** (`LibGen`, `ProcfsModel`, `Procfs`), **lists and round robin** (`ListHead`,
  `RoundRobin`), **numbers and text** (`Number`, `Strtol`, `PrintParse`) and the **terminal line
  discipline** (`RingBuffer`, `LineDiscipline`).

`Arith` and `Seqs` hold facts about division and sequences. Code that updates objects in place is
modelled by classes whose methods change fields and arrays; the value that such an object stands
for is a ghost field, and the properties are proved about that value. Memory at addresses (block
headers, list nodes, page tables, disk blocks, procfs entries) is a map from addresses. What the
kernel gets from outside is a parameter: the current tick, what a callback arms, the address that
an allocation returns, the memory map, the scancodes of the keyboard. Words are unbounded integers;
where 32-bit wrap-around matters it is written out (`word`, `% WORD`). `dafny verify
dfyconfig.toml` checks everything.

Some expectations do not hold of the code as it stands. Each is stated with the exact condition under
which the code keeps it:

- the single-frame search ignores the frames behind the last whole bitmap word
  (`FrameBitmap.LastWordMissed`, `FrameBitmap.LastWordMissedExample`);
- the limit test of sbrk wraps around (`KernelHeap.BrkKeepsBound`, `KernelHeap.BrkWraps`);
- the rounding of a request wraps for sizes above 0xFFFFFFF0 (`HeapModel.RoundedHolds`);
- a timer more than 2^31 - 1 ticks ahead is taken for one that has expired
  (`TimerWheelModel.DueIsExpiry`);
- procfs keeps inodes unique only below 1023 entries and hands out inode -1 from then on
  (`ProcfsModel.CreatedKeepsInodes`, `ProcfsModel.InodesRunOut`), and an entry made in a nested
  directory ends up below `/proc` itself (`Procfs.NestedParentLost`, `Procfs.LoseParent`);
- a closing slash changes what `dirname` returns, unless the path has at most one slash and that
  is not its first character (`LibGen.ClosingSlashMatters`, `LibGen.DirnameOfSlashed`);
- the plain timer list leaves a timer that the callback of its last entry arms for a past tick,
  which the wheel executes; a test on the list and the callbacks tells when
  (`TimerList.OverIsMisses`, `TimerRefinement.SameExecuted`, `TimerRefinement.LastEntryMissed`);
- the lookup of a hole below an index block takes a pointer of that block for the block of the file
  (`Ext2Tree.GetRealBlockIndex`, `Ext2Tree.HoleMisread`);
- a read at the end of a file fails unless a block is allocated there (`Ext2Read.ReadAtEnd`);
- the frame counter leaves the bitmap when a free frame is freed (`FrameBitmap.Frames.FreeFrame`);
- a run queue whose only runnable task is the current one yields no task
  (`RoundRobin.NoPick`);
- a negative number printed without its sign is read back as the largest long
  (`PrintParse.WithoutSign`).

## Model

| member | source | states |
|---|---|---|
| TimerWheelModel.FindTvecPlaces | src/arch/i386/timer.c:158-201 | the slot chosen for an expiry is the lowest level that reaches it, and its turn lies less than one round of that level ahead, strictly ahead above level 1 |
| TimerWheelModel.DueIsExpiry | src/arch/i386/timer.c:163-175 | the tick a timer really runs at is its expiry, or now if that is past, if and only if the two are less than 2^31 ticks apart; otherwise it is now, or the expiry one round of the counter later |
| TimerWheelModel.DueStable | src/arch/i386/timer.c:158-201 | finding a slot again later does not change the tick a pending timer is due at |
| TimerWheelModel.TurnsApart | include/arch/i386/timer.h:57-71 | when the wheel reaches a slot's index at a multiple of its grain, that is the turn of every timer in it |
| TimerWheelState.InsertKeepsCore | src/arch/i386/timer.c:204-233 | filing a timer keeps every pending timer in exactly one slot, the one its due tick asks for |
| TimerWheelState.CascadeDescends | src/arch/i386/timer.c:270-285 | a timer met by a cascade is filed at a strictly lower level, at an unchanged due tick |
| TimerWheelState.CascadeMove | src/arch/i386/timer.c:270-285 | moving one timer of a cascading slot keeps the whole invariant, shortens that slot and leaves drained slots drained |
| TimerWheelState.FireAfterCallback | src/arch/i386/timer.c:322-343 | running a timer of the current slot and unlinking it keeps the invariant, with the timers its callback armed accounted for |
| TimerWheelState.AdvanceToRest | src/arch/i386/timer.c:344-346 | with the slot of the tick empty and no cascade left, the next tick starts in a resting state |
| TimerWheelState.FiresExactlyWhenDue | src/arch/i386/timer.c:287-347 | at rest, a timer that was armed and not deleted has run exactly once, in the tick it was due, if that tick is past, and otherwise is pending and has not run |
| TimerWheelState.ArmedBehind | src/arch/i386/timer.c:204-233 | of the pending timers that are due in the same tick, a new one runs after those in the list that it joins and before all others |
| TimerWheelState.CascadeOrder | src/arch/i386/timer.c:270-285 | moving the first timer of a cascading slot keeps the order in which timers of the same tick will run |
| TimerWheelState.FireOrder | src/arch/i386/timer.c:322-343 | so does executing the first timer of the slot of the tick |
| TimerWheel.TvecBase.constructor | src/arch/i386/timer.c:65-87 | the empty wheel satisfies the invariant |
| TimerWheel.TvecBase.AddTimerTvecBase | src/arch/i386/timer.c:204-233 | the timer becomes the last one of the list of the slot found for it, every other list is as it was |
| TimerWheel.TvecBase.AddTimer | src/arch/i386/timer.c:385-394 | arming records the timer as due at its expiry, keeps the invariant and the order of all others, and says which timers of the same tick will run before it |
| TimerWheel.TvecBase.DelTimer | src/arch/i386/timer.c:236-267 | a pending timer is taken out of whichever slot holds it, and all others keep their order; one that is not pending changes nothing |
| TimerWheel.TvecBase.Cascate | src/arch/i386/timer.c:270-285 | the safe iteration empties the slot, keeps the invariant, the pending set and the order of timers of the same tick, and meets no timer that it filed itself |
| TimerWheel.TvecBase.CascateAll | src/arch/i386/timer.c:297-320 | after the cascades of a tick no higher slot whose turn it is holds a timer |
| TimerWheel.TvecBase.ExecuteList | src/arch/i386/timer.c:322-343 | the timers of the slot of the tick are run once each, in list order, although callbacks append to lists meanwhile |
| TimerWheel.TvecBase.RunTimerSoftirq | src/arch/i386/timer.c:287-347 | the wheel is at rest one tick behind the current one, and the log has grown by firings at their due ticks and what their callbacks armed, which is kept in order; an earlier current tick changes nothing |
| TimerRuns.Session | src/arch/i386/timer.c:204-405 | over every run of arming, deleting and running, two timers armed in the same tick for the same expiry run in the order of arming, through every cascade, unless one is deleted |
| TimerList.TimerQueue.RunTimerSoftirq | src/arch/i386/timer.c:353-371 | the scan of the plain list, callbacks included, is the one in which the successor is read before a callback runs |
| TimerList.ScanComplete | src/arch/i386/timer.c:353-371 | the scan executes every expired timer of the list and leaves every other one, and what an executed timer arms is executed or left |
| TimerList.ScanPlain | src/arch/i386/timer.c:353-371 | if nothing armed expires by the current tick, the scan executes exactly the expired timers in list order and leaves the others, followed by what was armed |
| TimerList.ScanPass | src/arch/i386/timer.c:353-371 | the scan goes pass by pass: the expired entries in list order, then what they appended, unless a pass ends with the entry that appends first |
| TimerList.OwesLess | src/arch/i386/timer.c:353-371 | a measure of the work ahead falls with every entry, so the scan ends although callbacks append to the list that it walks |
| TimerList.OverIsMisses | src/arch/i386/timer.c:353-371 | the scan leaves an expired timer on the list if and only if, in one of its passes, the last entry alone arms timers and one of them has expired |
| TimerList.TimerQueue.AddTimer | src/arch/i386/timer.c:385-394 | the timer is appended to the plain list |
| TimerList.TimerQueue.DelTimer | src/arch/i386/timer.c:396-405 | exactly that timer is taken off the plain list |
| TimerRefinement.ArmInStep | src/arch/i386/timer.c:385-394 | arming in both systems keeps them in step |
| TimerRefinement.StartInStep | src/arch/i386/timer.c:65-87 | the two empty systems are in step |
| TimerRefinement.DeleteInStep | src/arch/i386/timer.c:396-405 | deleting any timer in both systems keeps them in step |
| TimerRefinement.ScanWithinWheel | src/arch/i386/timer.c:291-371 | every timer that the scan executes, the wheel executes, and what the scan leaves on the list was pending in the wheel or armed by a callback that the wheel ran |
| TimerRefinement.SameExecuted | src/arch/i386/timer.c:291-371 | the scan executes everything that the wheel executes if and only if it misses no timer, which is a test on the list and the callbacks before the call |
| TimerRefinement.SamePending | src/arch/i386/timer.c:291-371 | the same timers are pending in the wheel and on the list afterwards if and only if the scan misses none |
| TimerRefinement.WheelRefinesList | src/arch/i386/timer.c:291-371 | for callbacks that arm for ticks after the one they run in: what the scan executes, the wheel executes, in tick order; and both stay in step if and only if the scan misses no timer |
| TimerRefinement.RunBoth | src/arch/i386/timer.c:287-371 | the two implementations, run side by side: what the list executes, the wheel executes, and they stay in step if and only if the scan misses no timer of the list as it was before; it misses none if callbacks arm for ticks after the current one |
| TimerRefinement.LastEntryMissed | src/arch/i386/timer.c:353-371 | the callback of the last entry arms a timer for a tick that is also past, and the scan leaves it |
| TimerRefinement.Play | src/arch/i386/timer.c:287-405 | in every run of arming, deleting and advancing from the empty systems on, whose callbacks may arm anew in every advance, the systems are in step after every event if and only if no scan misses a timer, and part at the first that does, with everything that the list has executed executed by the wheel |
| TimerRefinement.RearmedRuns | src/arch/i386/timer.c:287-405 | such a run in which a timer armed by a callback runs in its turn |
| HeapModel.RoundedHolds | src/kernel/memory/kheap.c:301 | the rounded size is the least multiple of 16 that holds the request if that is at most 0xFFFFFFF0, and 0 otherwise |
| HeapModel.TiledBytes | src/kernel/memory/kheap.c:273-420 | headers and payloads together are exactly the bytes between the start and the top of the heap |
| HeapModel.TiledDisjoint | src/kernel/memory/kheap.c:273-420 | blocks do not overlap and lie in address order |
| HeapModel.CarveKeepsInv | src/kernel/memory/kheap.c:309-382 | taking a free block, split or whole, keeps tiling, free list and the absence of adjacent free blocks, and adds exactly one live block |
| HeapModel.CarveExact | src/kernel/memory/kheap.c:309-372 | a block is split if and only if at least 20 bytes would be left over, and the rest then is a free block behind a header of 12 bytes |
| HeapModel.CarveNewFirst | src/kernel/memory/kheap.c:76-105 | what malloc puts on the free list comes first, the others stay in order |
| HeapModel.GrowKeepsInv | src/kernel/memory/kheap.c:383-419 | growing keeps the invariant and adds exactly one live block |
| HeapModel.ReleaseKeepsInv | src/kernel/memory/kheap.c:741-806 | freeing with any of the four joins keeps the invariant and removes exactly one live block |
| HeapModel.ReleaseNewFirst | src/kernel/memory/kheap.c:741-806 | what free puts on the free list comes first, the others stay in order |
| HeapModel.JoinedSize | src/kernel/memory/kheap.c:761-805 | a joined block gains the sizes and headers of exactly its free neighbours |
| HeapModel.LiveApart | src/kernel/memory/kheap.c:301-420 | a live payload lies inside the heap behind its header, is 4-byte aligned and overlaps no other block |
| HeapModel.AllReturned | src/kernel/memory/kheap.c:741-806 | without live blocks the heap is one free block that spans it all |
| HeapRuns.RunKeepsInv | src/kernel/memory/kheap.c:273-420 | every run of malloc and free keeps the invariant and conserves bytes |
| HeapRuns.LiveUntilFreed | src/kernel/memory/kheap.c:741-806 | an allocation stays where it is, with its size, until it is freed itself |
| HeapRuns.ClientView | src/kernel/memory/kheap.c:273-420 | what malloc returns is new, large enough, less than 20 bytes larger than the rounded request, aligned, inside the heap and apart from every other block; the heap grows only if no block fits, and by exactly that block |
| HeapRuns.EverythingReturned | src/kernel/memory/kheap.c:741-806 | freeing everything in any order leaves one free block |
| HeapRuns.Session | src/kernel/memory/kheap.c:273-420 | every list of malloc and free calls on a fresh allocator is such a run, ends in its last heap and returns its blocks |
| KernelHeap.Allocator.constructor | src/kernel/memory/kheap.c:978-1007 | the initial heap satisfies the invariant |
| KernelHeap.Allocator.RemoveFromFreelist | src/kernel/memory/kheap.c:76-96 | the chain loses exactly that block, headers are otherwise unchanged |
| KernelHeap.Allocator.AddToFreelist | src/kernel/memory/kheap.c:99-105 | the block becomes the head of the chain |
| KernelHeap.Allocator.FindBestFitting | src/kernel/memory/kheap.c:108-127 | the result is a smallest free block that fits, the first of those on the list, null if and only if none does |
| KernelHeap.FreedIsReused | src/kernel/memory/kheap.c:108-127 | a block that was given back and joined none before it is the first choice for a request of its size |
| KernelHeap.Allocator.PreviousBlock | src/kernel/memory/kheap.c:153-170 | the walk from the head finds the block before, null for the first |
| KernelHeap.Allocator.NextBlock | src/kernel/memory/kheap.c:173-185 | the block behind block i of the tiling, null for the last one, found from its header and the tail |
| KernelHeap.Allocator.Sbrk | src/kernel/memory/kheap.c:223-267 | an increment whose sum does not wrap is granted if and only if the heap does not pass its end, and the heap then ends at the sum; one that wraps is always granted, and the heap ends before where it did |
| KernelHeap.BrkKeepsBound | src/kernel/memory/kheap.c:223-267 | the test keeps the heap below its end if and only if the sum does not wrap |
| KernelHeap.BrkWraps | src/kernel/memory/kheap.c:223-267 | an increment that is granted although it passes the end of the heap |
| KernelHeap.Allocator.TakeBlock | src/kernel/memory/kheap.c:309-382 | the header writes of a split carve the block, and the merge with a following free block is never reached |
| KernelHeap.Allocator.Extend | src/kernel/memory/kheap.c:383-419 | the header writes of growth append one block |
| KernelHeap.Allocator.Malloc | src/kernel/memory/kheap.c:273-420 | the best-fitting block is taken, split exactly if 20 bytes or more are left over, and the heap grows only if none fits |
| KernelHeap.Allocator.Free | src/kernel/memory/kheap.c:741-806 | the header writes join the block with exactly its free neighbours, and what is new on the free list comes first |
| FrameBitmap.Frames.constructor | src/kernel/memory/pmm.c:315-402 | the counter starts with the set bits of the whole words |
| FrameBitmap.Frames.CountUsed | src/kernel/memory/pmm.c:387-394 | the counting loop counts the set bits of the whole words |
| FrameBitmap.Frames.FrameSet | src/kernel/memory/pmm.c:23-46 | exactly that bit is set |
| FrameBitmap.Frames.FrameUnset | src/kernel/memory/pmm.c:55-84 | exactly that bit is cleared, and no frame below the search start is free |
| FrameBitmap.Frames.FrameTest | src/kernel/memory/pmm.c:92-97 | the bit of the frame |
| FrameBitmap.Frames.FirstFreeFrame | src/kernel/memory/pmm.c:102-125 | the least free frame of the whole words, 0 if and only if there is none |
| FrameBitmap.LastWordMissed | src/kernel/memory/pmm.c:102-125 | an empty-handed search means that no frame is free if and only if the frames behind the last whole word are used |
| FrameBitmap.LastWordMissedExample | src/kernel/memory/pmm.c:102-125 | of 33 frames the last one is free while every frame that the search looks at is in use |
| FrameBitmap.Frames.FirstNFreeFrames | src/kernel/memory/pmm.c:132-194 | the least start of n consecutive free frames, for n of two and more 0 only if no start works |
| FrameBitmap.Frames.ScanRuns | src/kernel/memory/pmm.c:173-194 | skipping full words loses no run |
| FrameBitmap.Frames.ScanStep | src/kernel/memory/pmm.c:176-191 | one frame or one full word, and no run starts before the free frames just passed |
| FrameBitmap.Frames.MarkFrameUsed | src/kernel/memory/pmm.c:196-199 | the counter and the set bits grow together |
| FrameBitmap.Frames.AllocateFrame | src/kernel/memory/pmm.c:201-224 | the least free frame, which is not out, is handed out and marked, 0 exactly when none can be found |
| FrameBitmap.Frames.AllocateFrames | src/kernel/memory/pmm.c:233-260 | the least run is handed out and marked as a whole, and the counter minus the set bits stays constant |
| FrameBitmap.Frames.FreeFrame | src/kernel/memory/pmm.c:270-278 | the frame is free again and the counter lowered, and the counter minus the set bits stays constant if and only if it was in use |
| FrameBitmap.Frames.Session | src/kernel/memory/pmm.c:201-278 | over any list of allocations and releases, what is out is what was handed out and not given back, no frame is handed out while it is out, and the counter minus the set bits stays constant if callers give back what is out |
| PageTables.AddTableKeepsWalk | src/kernel/memory/vmm.c:87-93 | a fresh page table changes no translation |
| PageTables.SetEntryUpdatesWalk | src/kernel/memory/vmm.c:286-316 | writing one table entry changes the translation of exactly that page |
| PageTables.FlagsAdded | src/kernel/memory/vmm.c:50-52 | flags are only added: a mask meets the result if and only if it meets the old flags or those added |
| PageTables.TouchedMeans | src/kernel/memory/vmm.c:318-326 | the pages that mapping a range visits are those that hold one of its bytes |
| PageTables.InsideMeans | src/kernel/memory/vmm.c:375-382 | the pages that unmapping a range visits are those all of whose bytes it holds |
| PageTables.AddressSpace.AllocateTable | src/kernel/memory/vmm.c:219-224 | a table in a frame of its own appears, marked as used, under an entry with the flags added, and no page table entry changes; it fails only without a free frame |
| PageTables.AddressSpace.MapAddr | src/kernel/memory/vmm.c:73-77 | exactly that entry gets the frame of the address and the flags added, and the frame is marked as used |
| PageTables.AddressSpace.MapPage | src/kernel/memory/vmm.c:286-316 | exactly the entry of the page gets the frame and the flags added to its own, a missing table is made with those flags, and exactly the frame and that of the table become used |
| PageTables.AddressSpace.MapRange | src/kernel/memory/vmm.c:318-326 | the same for every page that the range touches, with consecutive frames |
| PageTables.AddressSpace.UnmapPage | src/kernel/memory/vmm.c:328-350 | exactly that page has no translation any more, and exactly its entry is cleared |
| PageTables.AddressSpace.UnmapRange | src/kernel/memory/vmm.c:375-382 | the same for exactly the pages inside the range |
| PageTables.AddressSpace.MapThenUnmap | src/kernel/memory/vmm.c:318-382 | unmapping an aligned range that was empty before it was mapped restores every translation and leaves its entries clear |
| PageTables.AddressSpace.CreatePage | src/kernel/memory/vmm.c:208-239 | a page without translation gets a frame that was free, one with a translation keeps it; either way its entry gets the flags added, and only new frames become used |
| PageTables.AddressSpace.FillEntry | src/kernel/memory/vmm.c:62-68 | the same for one table entry |
| PageTables.AddressSpace.PhysicalAddress | src/kernel/memory/vmm.c:160-167 | the physical address is the translation of the page plus the offset |
| Ext2Tree.LeafAt | src/kernel/fs/ext2.c:1002-1068 | child c of an index block holds the leaves from c times the size of a subtree on |
| Ext2Tree.WordIsStored | src/kernel/fs/ext2.c:1024-1026 | a pointer is read as the number that its four bytes stand for, the least significant first |
| Ext2Tree.LimitOrder | src/kernel/fs/ext2.c:2760-2769 | the limits that mount computes are the real ones, but for the last, which is p*p too large |
| Ext2Tree.DoublyIndex | src/kernel/fs/ext2.c:1027-1039 | the two digits of a doubly indirect index are in bounds and lead to that leaf |
| Ext2Tree.TreblyIndex | src/kernel/fs/ext2.c:1040-1057 | the three digits of a trebly indirect index are in bounds and lead to that leaf |
| Ext2Tree.GetRealBlockIndex | src/kernel/fs/ext2.c:1002-1068 | in any file, the index that the lookup returns, and that it is leaf n of the inode's trees in order if and only if block n is not a hole for which a pointer of an index block above it stays in the cache; 0 behind the last limit |
| Ext2Tree.FetchedIndirect | src/kernel/fs/ext2.c:1019-1026 | the lookup of an indirect block returns the pointer at that place of the index block |
| Ext2Tree.FetchedDoubly | src/kernel/fs/ext2.c:1027-1039 | that of a doubly indirect one follows the pointers of two index blocks |
| Ext2Tree.FetchedTrebly | src/kernel/fs/ext2.c:1040-1057 | that of a trebly indirect one follows the pointers of three |
| Ext2Tree.AllocatedIsRead | src/kernel/fs/ext2.c:1002-1068 | the lookup of an allocated block is right, however full the index trees are |
| Ext2Tree.HoleMisread | src/kernel/fs/ext2.c:1027-1039 | with only the first pointer of the doubly indirect block set, the hole behind it is looked up as that first index block |
| Ext2Read.ContentSlice | src/kernel/fs/ext2.c:1160-1237 | block n holds the bytes from n times the block size on |
| Ext2Read.ReadInodeBlock | src/kernel/fs/ext2.c:1111-1123 | a block that is not a misread hole is read if and only if it is allocated, and is then its slice of the bytes of the file |
| Ext2Read.AllocatedIsKnown | src/kernel/fs/ext2.c:1111-1123 | blocks that are allocated are not misread, in any file |
| Ext2Read.CountedMeans | src/kernel/fs/ext2.c:1113-1114 | the sector count allows for a block if and only if it counts all its sectors |
| Ext2Read.ReadBlocks | src/kernel/fs/ext2.c:1196-1216 | the loop succeeds if and only if its blocks are allocated, and fills the buffer with the bytes up to the block in which the read ends |
| Ext2Read.CopyMany | src/kernel/fs/ext2.c:1196-1226 | the whole blocks and the last, partial one continue each other, and succeed if and only if all are allocated |
| Ext2Read.CopyRange | src/kernel/fs/ext2.c:1178-1237 | a read within one block or over several is put together without gap or overlap, and succeeds if and only if its blocks are allocated |
| Ext2Read.ReadInodeData | src/kernel/fs/ext2.c:1160-1237 | of any file, if no block that the read touches is a misread hole: it succeeds if and only if those blocks are allocated, and the buffer then holds exactly the bytes from the offset to the end of the request or of the file, whichever comes first, for any alignment; the rest of the buffer is untouched |
| Ext2Read.StopMeans | src/kernel/fs/ext2.c:1168-1177 | the blocks of a read are those that hold one of its bytes, and the one that holds the offset |
| Ext2Read.ReadAtEnd | src/kernel/fs/ext2.c:1160-1237 | a read at the end of the file returns 0 if a block is allocated there and -1 if not, misread holes aside; so -1 if the file fills the blocks that its sector count allows for |
| Ext2Inodes.PlaceIsAddress | src/kernel/fs/ext2.c:348-372 | group, block and offset name the byte address that the table layout gives the inode, within one block |
| Ext2Inodes.AddressMeans | src/kernel/fs/ext2.c:348-363 | record k of the table of group g belongs to inode g * inodes_per_group + k + 1 |
| Ext2Inodes.RecordsApart | src/kernel/fs/ext2.c:348-372 | records of different inodes, in any groups, do not overlap |
| Ext2Inodes.WriteIsolated | src/kernel/fs/ext2.c:652-695 | after a write of inode i, inode j holds the new record if and only if j is i, and its old one otherwise |
| Ext2Inodes.Volume.ReadInode | src/kernel/fs/ext2.c:604-645 | the record stored for the inode, -1 for inode 0 and groups that do not exist |
| Ext2Inodes.Volume.WriteInode | src/kernel/fs/ext2.c:652-695 | only the bytes of that record change on the whole disk |
| Ext2Alloc.SetBitmapBit | src/kernel/fs/ext2.c:391-397 | exactly that bit of the bitmap is set or cleared |
| Ext2Alloc.BitmapMeans | src/kernel/fs/ext2.c:381-397 | bit k of byte j of a bitmap stands for block 8 * j + k of the group, the lowest bit first |
| Ext2Alloc.CountsAfter | src/kernel/fs/ext2.c:775-786 | lowering both counters keeps them equal to the clear bits |
| Ext2Alloc.NoneFree | src/kernel/fs/ext2.c:754-796 | the superblock counts no free block if and only if no bit is clear |
| Ext2Alloc.Filesystem.FindFreeBlockInGroup | src/kernel/fs/ext2.c:469-480 | the first clear bit of the group, or none if all are set |
| Ext2Alloc.Filesystem.FindFreeBlock | src/kernel/fs/ext2.c:486-507 | the first clear bit of all groups, or none |
| Ext2Alloc.Filesystem.AllocateBlock | src/kernel/fs/ext2.c:754-796 | the least free block, never issued before and never metadata, is marked and zeroed, no other data block changes; 0 if and only if none is free |
| Ext2Alloc.Filesystem.AllocateRun | src/kernel/fs/ext2.c:754-796 | a run of allocations returns pairwise different blocks until exactly the free ones are gone |
| LibGen.CanonicalIsNormal | src/kernel/lib/libgen.c:70-130 | a canonical path has no empty, "." or ".." component, and is its own canonical path |
| LibGen.CanonicalInto | src/kernel/lib/libgen.c:104-123 | another component is added to the path |
| LibGen.CanonicalOutOf | src/kernel/lib/libgen.c:112-117 | dot-dot undoes that |
| LibGen.CanonicalParent | src/kernel/lib/libgen.c:112-117 | dot-dot leads to the dirname of the canonical path |
| LibGen.CanonicalRoot | src/kernel/lib/libgen.c:112-117 | above the root there is the root |
| LibGen.CanonicalSame | src/kernel/lib/libgen.c:104-120 | a dot or an empty component stands for nothing |
| LibGen.CanonicalPrefix | src/kernel/lib/libgen.c:77-94 | a directory may be replaced by its canonical path, so that the working directory may |
| LibGen.CanonicalNotLonger | src/kernel/lib/libgen.c:104-123 | resolving never makes a path longer |
| LibGen.ClosingSlash | src/kernel/lib/libgen.c:99-102 | the slash that realpath appends changes nothing |
| LibGen.Back | src/kernel/lib/libgen.c:113-117 | walking back drops exactly the last component, nothing below the root |
| LibGen.Scan | src/kernel/lib/libgen.c:104-123 | the loop ends with the stack of components that the path denotes |
| LibGen.RealPath | src/kernel/lib/libgen.c:70-130 | the canonical path of an absolute path, or of the working directory, a slash and a relative path, for every path that fits in PATH_MAX - 2 |
| LibGen.RealPathTwice | src/kernel/lib/libgen.c:70-130 | for every path that fits, realpath of what realpath returned, with any working directory, is the same text again |
| LibGen.DirnameBasename | src/kernel/lib/libgen.c:28-68 | dirname and basename take a canonical path apart into directory and last component |
| LibGen.TakeApart | src/kernel/lib/libgen.c:28-68 | dirname and basename take any path without a closing slash apart at its last slash |
| LibGen.TakeApartClosed | src/kernel/lib/libgen.c:48-51 | with a closing slash, dirname cuts the path at its first slash |
| LibGen.DirnameOfSlashed | src/kernel/lib/libgen.c:44-59 | dirname of an absolute path is empty if and only if it has a closing slash that is not its only character |
| LibGen.ClosingSlashMatters | src/kernel/lib/libgen.c:48-51 | a closing slash makes no difference to dirname if and only if the path has no slash, or exactly one that is not its first character |
| LibGen.ClosingSlashExample | src/kernel/lib/libgen.c:48-51 | the directory of a/b/c/ is given as a, that of a/b/c as a/b |
| ProcfsModel.SomeInodeFree | src/kernel/fs/procfs.c:186-191 | below 1023 entries an inode is free |
| ProcfsModel.CreatedMeans | src/kernel/fs/procfs.c:222-262 | a new entry has the path and kind asked for and the least free inode, and nothing else changes |
| ProcfsModel.OpenedMeans | src/kernel/fs/procfs.c:286-316 | a new handle has the inode of its entry and joins its list last, and nothing else changes |
| ProcfsModel.HasParentMeans | src/kernel/fs/procfs.c:349-358 | top-level paths need no directory, any other path the one that it is in |
| ProcfsModel.NoInodeFree | src/kernel/fs/procfs.c:186-191 | with unique inodes and 1023 or more entries none is free |
| ProcfsModel.CreatedKeepsInodes | src/kernel/fs/procfs.c:222-262 | a new entry keeps the inodes unique if and only if fewer than 1023 entries exist |
| ProcfsModel.InodesRunOut | src/kernel/fs/procfs.c:186-191 | with unique inodes and 1023 or more entries, the next two entries both get inode -1 |
| ProcfsModel.CreatedRooted | src/kernel/fs/procfs.c:340-367 | a new entry leaves every entry with an existing parent directory if and only if its own exists |
| ProcfsModel.DestroyedRooted | src/kernel/fs/procfs.c:372-402 | removing an entry leaves no other without its parent if and only if it has no children, which a regular file never has |
| ProcfsModel.ApplyKeeps | src/kernel/fs/procfs.c:222-316 | every change keeps paths and inodes unique, nfiles the length of the list, and handle lists exact |
| ProcfsModel.HandleSafety | src/kernel/fs/procfs.c:161-174 | in every run, the inode of an open handle resolves to exactly the entry it was opened on |
| ProcfsModel.ApplyRooted | src/kernel/fs/procfs.c:222-316 | a change keeps every entry in an existing directory if and only if it creates below one that exists or removes an entry without children |
| ProcfsModel.RunRooted | src/kernel/fs/procfs.c:222-316 | every entry has its directory in every state of a run if and only if every change of it is of that kind |
| Procfs.FileSystem.constructor | src/kernel/fs/procfs.c:786-796 | the empty file system satisfies all invariants |
| Procfs.FileSystem.FindEntryPath | src/kernel/fs/procfs.c:144-156 | the entry with that path, null if and only if there is none |
| Procfs.FileSystem.FindEntryInode | src/kernel/fs/procfs.c:161-174 | an entry with that inode, null if and only if there is none |
| Procfs.FileSystem.GetFreeInode | src/kernel/fs/procfs.c:186-191 | the least free inode, -1 if there is none |
| Procfs.FileSystem.CheckIfEmpty | src/kernel/fs/procfs.c:196-216 | 1 if and only if another entry lies in the directory |
| Procfs.FileSystem.CreateFile | src/kernel/fs/procfs.c:222-262 | one entry is added and the invariants are kept |
| Procfs.FileSystem.DestroyFile | src/kernel/fs/procfs.c:267-281 | one entry is removed and the invariants are kept; parents stay in place if and only if it has no children |
| Procfs.FileSystem.OpenEntry | src/kernel/fs/procfs.c:286-316 | a new handle carries the inode of its entry and joins its list |
| Procfs.FileSystem.Mkdir | src/kernel/fs/procfs.c:340-367 | a directory is created if and only if the path is free and its parent is a directory; each error if and only if its cause is the first one |
| Procfs.FileSystem.Rmdir | src/kernel/fs/procfs.c:372-402 | only an existing, closed, empty directory is removed; each error if and only if its cause is the first one |
| Procfs.FileSystem.Open | src/kernel/fs/procfs.c:409-512 | when an open succeeds, that it then opens or creates exactly the entry of that path, and which error it ends with otherwise |
| Procfs.FileSystem.Close | src/kernel/fs/procfs.c:516-525 | exactly that handle is gone |
| Procfs.FileSystem.Mount | src/kernel/fs/procfs.c:765-777 | the root directory is created and opened |
| Procfs.FileSystem.ProcCreate | src/kernel/fs/procfs.c:828-850 | an entry is made unless its path exists, and parents stay in place if and only if its own exists |
| Procfs.FileSystem.ProcRmdir | src/kernel/fs/procfs.c:852-886 | only a closed, empty directory is removed; each error if and only if its cause is the first one |
| Procfs.FileSystem.ProcDestroyEntry | src/kernel/fs/procfs.c:913-942 | only a closed regular file is removed; each error if and only if its cause is the first one |
| Procfs.Session | src/kernel/fs/procfs.c:340-942 | over any list of calls every open handle that is not closed stays on its file, its inode leads to exactly that file while fewer than 1024 entries could have been made, and without proc_mkdir and proc_create_entry no entry loses its parent |
| Procfs.EntryParent | src/kernel/fs/procfs.c:888-897 | the directory of an entry made in the kernel is /proc or a directory directly below it |
| Procfs.NestedParentLost | src/kernel/fs/procfs.c:888-911 | an entry made in a nested directory has a parent if and only if a directory of that name lies directly below /proc |
| Procfs.LoseParent | src/kernel/fs/procfs.c:765-850 | a run of a mount and three directories after which one entry has no parent directory |
| ListHead.Rotate | include/kernel/list_head.h:42-43 | a ring can be walked from any of its nodes |
| ListHead.Links.Init | include/kernel/list_head.h:47-49 | the node is a ring of its own |
| ListHead.Links.Empty | include/kernel/list_head.h:54-56 | true if and only if the ring is the head alone |
| ListHead.Links.Size | include/kernel/list_head.h:60-65 | the number of other nodes of the ring |
| ListHead.Links.InsertAfter | include/kernel/list_head.h:70-82 | the ring gains the entry behind the location, and every other ring is as it was |
| ListHead.Links.InsertBefore | include/kernel/list_head.h:87-99 | the ring gains the entry before the location, and every other ring is as it was |
| ListHead.Links.Remove | include/kernel/list_head.h:103-113 | the ring loses the entry, which is a ring of its own afterwards, and every other ring is as it was |
| ListHead.Links.InsertThenRemove | include/kernel/list_head.h:87-113 | removing an inserted entry restores every link |
| RoundRobin.NextInOrder | src/kernel/process/sched_algo.c:28-51 | the first runnable task behind the current one is the next in cyclic list order |
| RoundRobin.NoPick | src/kernel/process/sched_algo.c:35-50 | in a longer queue there is no pick if and only if no other task is runnable |
| RoundRobin.Fair | src/kernel/process/sched_algo.c:28-51 | any k consecutive picks visit each of the k runnable tasks exactly once |
| RoundRobin.RunQueue.Enqueue | src/kernel/process/scheduler.c:84-93 | a task joins the ring at its end |
| RoundRobin.RunQueue.SchedulerRR | src/kernel/process/sched_algo.c:28-51 | the search returns the first runnable task behind the current one and skips the list head; a task that is picked is in the running state, and none is picked only if no other is |
| RoundRobin.RunQueue.Search | src/kernel/process/sched_algo.c:35-50 | the loop finds the first runnable task of the rest of the ring, or none |
| RoundRobin.RunQueue.PickNextTask | src/kernel/process/sched_algo.c:185-215 | in a queue of several tasks, another task in the running state is picked, and only its start time changes |
| RoundRobin.RunQueue.Schedule | src/kernel/process/sched_algo.c:185-215 | repeated picks go round the runnable tasks in list order, never the head or another task; as many in a row as there are runnable tasks visit each exactly once, and the last pick is the current task |
| Number.Extract | src/kernel/lib/vsprintf.c:77-85 | the digits in reverse, within the 66 characters of the buffer |
| Number.TextWidth | src/kernel/lib/vsprintf.c:86-110 | the text fills the field width exactly, unless sign, prefix and digits need more |
| Number.TextSides | src/kernel/lib/vsprintf.c:86-110 | where sign, prefix, zeros and digits stand in the text, and what it is padded with, for every flag |
| Number.DigitCharMeans | src/kernel/lib/vsprintf.c:36-40 | digits from ten on are letters, of the case asked for |
| Number.NoLeadingZero | src/kernel/lib/vsprintf.c:77-85 | the digits of a number other than 0 do not start with 0 |
| Number.SignMeans | src/kernel/lib/vsprintf.c:53-66 | which sign is printed |
| Number.PrefixMeans | src/kernel/lib/vsprintf.c:96-103 | which prefix is printed |
| Number.Assemble | src/kernel/lib/vsprintf.c:90-110 | the padding loops write blanks, sign, prefix, zeros, digits and blanks in that order |
| Number.Print | src/kernel/lib/vsprintf.c:33-111 | the text of the number, null if and only if the base is not in 2..36 |
| Strtol.CutoffExact | src/kernel/lib/stdio.c:66-102 | the cutoff test holds if and only if the next step would leave the range |
| Strtol.ValueIsPlaceValue | src/kernel/lib/stdio.c:87-107 | the accumulated value is the sum of the digits by their places |
| Strtol.DigitOfMeans | src/kernel/lib/stdio.c:77-84 | the digits are 0 to 9 and letters of either case |
| Strtol.HeaderMeans | src/kernel/lib/stdio.c:33-49 | what blanks, a sign and a prefix decide |
| Strtol.Consume | src/kernel/lib/stdio.c:87-107 | no intermediate value leaves the range of a long |
| Strtol.Accumulate | src/kernel/lib/stdio.c:66-108 | the loop reads the longest run of digits |
| Strtol.ParseLong | src/kernel/lib/stdio.c:22-112 | the exact value clamped to the range of a long, the range error if and only if it was clamped, and the end of the digits (section 7.22.1.4 of ISO/IEC 9899:2011) |
| PrintParse.DigitTextValue | src/kernel/lib/vsprintf.c:77-85 | the value of the printed digits is the number |
| PrintParse.Shape | src/kernel/lib/vsprintf.c:90-110 | every layout is blanks, sign, prefix, zeros, digits, blanks |
| PrintParse.RoundTrip | src/kernel/lib/vsprintf.c:33-111 | strtol reads back the number that was printed, in every base, with every width, precision and flags, if it was printed with its sign |
| PrintParse.WithoutSign | src/kernel/lib/vsprintf.c:53-68 | a negative number printed without its sign denotes its 32-bit pattern and is read back as LONG_MAX |
| PrintParse.PrintThenParse | src/kernel/lib/stdio.c:22-112 | the two functions, one after the other, return the number if and only if it is not negative or printed with its sign |
| RingBuffer.Ring.PushFront | include/kernel/ring_buffer.h:23-29 | the item is appended, and a full buffer drops its oldest |
| RingBuffer.Ring.PopBack | include/kernel/ring_buffer.h:33-40 | the oldest item is taken out |
| RingBuffer.Ring.PopFront | include/kernel/ring_buffer.h:41-46 | the newest item is taken out |
| RingBuffer.Ring.Front | include/kernel/ring_buffer.h:58-62 | the newest item, the initial value if there is none |
| LineDiscipline.LinesGrow | src/kernel/fs/procv.c:64-82 | no keystroke, a backspace included, changes a completed line (section 11.1.6 of POSIX.1-2017, Base Definitions) |
| LineDiscipline.LinesEnd | src/kernel/fs/procv.c:43-49 | completed lines end with a newline and the line being edited has none |
| LineDiscipline.LineTyped | src/kernel/fs/procv.c:92-95 | plain characters are what the line is made of |
| LineDiscipline.LineCompleted | src/kernel/fs/procv.c:43-91 | a newline completes it, delete is kept as an escape sequence |
| LineDiscipline.BackspaceErases | src/kernel/fs/procv.c:61-81 | a backspace takes the last character back, and nothing at the start of a line |
| LineDiscipline.ShortMeans | include/kernel/drivers/keyboard.h:6 | a line fits if and only if it has at most 255 characters, its newline included |
| LineDiscipline.CharsMeans | src/kernel/fs/procv.c:58-59 | the character of a scancode is its low byte |
| LineDiscipline.TookFaithful | src/kernel/fs/procv.c:61-95 | a keystroke edits only the line being typed, and unless lines are too long the buffer stays in step with the editor |
| LineDiscipline.Conserved | src/kernel/drivers/keyboard.c:62-79 | in every run, the keystrokes taken and those that wait are all that arrived, in order, if and only if the keyboard buffer was never full when one arrived |
| LineDiscipline.Delivered | src/kernel/fs/procv.c:27-122 | the bytes returned are a prefix of the completed lines of all keystrokes, and all of them once nothing waits and no line is left to drain |
| LineDiscipline.Terminal.Accept | src/kernel/fs/procv.c:61-95 | the line buffer after a keystroke, of which a full one has forgotten its oldest characters |
| LineDiscipline.Terminal.Type | src/kernel/drivers/keyboard.c:62-68 | a keystroke joins the keyboard buffer, of which a full one forgets its oldest; one below 0 is ignored |
| LineDiscipline.Terminal.Read | src/kernel/fs/procv.c:27-122 | a call returns the next byte of a completed line if there is one, and otherwise takes one keystroke; both buffers, the keystrokes taken and the bytes returned afterwards |
| LineDiscipline.Terminal.Session | src/kernel/fs/procv.c:27-122 | for every interleaving of keystrokes and reads, the state and the bytes are those of the run of its events; if none of the arriving keystrokes is forgotten and lines stay within 255 characters, the bytes are a prefix of the lines that those keystrokes are edited into, and all of them once everything has been read |

## Left out

- Timers: wrap-around of the tick counter, callbacks that delete timers, the locks around callbacks, and the alarm, itimer and nanosleep calls.
- TimerWheel.TvecBase.AddTimer: a timer stands for one arming; an object that is armed again after it was deleted is another one.
- TimerWheel.TvecBase.DelTimer: lists are sequences without links, so that unlinking an entry takes it out of whichever list holds it; the link writes are modelled by ListHead.
- TimerWheel.TvecBase.ExecuteList: callbacks that arm a timer for the current or an earlier tick are excluded; the code appends those to the list that it is walking, and one armed by the last timer of that list waits for the next round of 256 ticks.
- TimerWheel.TvecBase.RunTimerSoftirq: excludes the same callbacks, and the last value of the tick counter, at which the loop does not end.
- TimerRuns.Session: excludes the same callbacks, and a second arming under the same name.
- TimerList.TimerQueue.RunTimerSoftirq: excludes callbacks that arm a timer for the tick of their own expiry or before, with which the scan need not end.
- TimerList.TimerQueue.AddTimer: excludes a second arming under the same name, as for the wheel.
- TimerRefinement.ScanWithinWheel: excludes the same callbacks as TimerRefinement.RunBoth.
- TimerRefinement.WheelRefinesList: excludes the same callbacks as TimerRefinement.RunBoth.
- TimerRefinement.RunBoth: excludes the callbacks that the wheel excludes and children 2^31 or more ticks ahead.
- TimerRefinement.SameExecuted: excludes the same callbacks as TimerRefinement.RunBoth.
- TimerRefinement.ArmInStep: timers 2^31 or more ticks from the current one are excluded, which the wheel takes for expired (`TimerWheelModel.DueIsExpiry`).
- TimerRefinement.SamePending: excludes the same callbacks as TimerRefinement.RunBoth.
- TimerRefinement.Play: excludes the same callbacks, and timers armed 2^31 or more ticks from the current one; what follows after the scan that parts the systems is not stated.
- Heap: aligned allocation and reallocation, user heaps, and the mapping of pages as the heap grows.
- KernelHeap.Allocator.Malloc: a heap that has to grow past its end is excluded; the assertion after a refused sbrk only logs, and the code goes on with a null pointer.
- KernelHeap.Allocator.Extend: excludes the same refusal.
- HeapRuns.Session: excludes the same refusal, and calls that free what is not live.
- FrameBitmap.Frames.constructor: the bitmap that the memory map leads to is a parameter, in which frame 0 is in use.
- FrameBitmap.Frames.FrameUnset: frame 0, the value that stands for no frame, and frames behind the bitmap are excluded.
- FrameBitmap.Frames.FreeFrame: excludes the same frames.
- FrameBitmap.Frames.Session: excludes the same frames.
- Paging: large pages and directory slot 1023, which maps the tables themselves, flags without the present bit, frames behind the bitmap, the TLB, the contents of pages, vmm_free_page and vmm_deallocate_range, and the cloning of directories.
- PageTables.AddressSpace.AllocateTable: directory slot 1023 is excluded.
- PageTables.AddressSpace.MapPage: large pages and slot 1023 are excluded; a failed allocation of a table halts the machine, so nothing is stated about the tables after it.
- PageTables.AddressSpace.MapRange: ranges that reach slot 1023 are excluded.
- PageTables.AddressSpace.UnmapPage: slot 1023 is excluded.
- PageTables.AddressSpace.UnmapRange: ranges that reach slot 1023 are excluded.
- PageTables.AddressSpace.MapThenUnmap: ranges that reach slot 1023 are excluded.
- PageTables.AddressSpace.CreatePage: large pages and slot 1023 are excluded.
- PageTables.AddressSpace.PhysicalAddress: is stated for pages that are mapped; the code reads through the recursive slot for any address.
- ext2: writing file data, directories, inode allocation, and the copies of the superblock and group descriptors on disk.
- Ext2Tree.GetRealBlockIndex: indices between the real capacity and the last limit of mount, where the code would read behind the block, are excluded.
- Ext2Read.ReadInodeBlock: requires that the sector count of the inode allows for no more blocks than its trees can hold.
- Ext2Read.ReadBlocks: requires the same of the sector count.
- Ext2Read.CopyMany: requires the same of the sector count.
- Ext2Read.CopyRange: requires the same of the sector count.
- Ext2Read.ReadAtEnd: requires the same of the sector count.
- Ext2Read.ReadInodeData: offsets behind the end of the file and requests whose end wraps at 2^32 are excluded, as the code computes a length without meaning for those behind the end; of a read that touches a misread hole only the length of the result is stated, and that the rest of the buffer is untouched.
- Ext2Inodes.Volume.ReadInode: an inode of the first group behind the last one is excluded, as the group test of the code lets it through and reads a descriptor that does not exist.
- Ext2Inodes.Volume.WriteInode: excludes the same inodes.
- Ext2Alloc.Filesystem.AllocateBlock: models file systems whose first data block is 0 and whose metadata is marked as used.
- Ext2Alloc.Filesystem.AllocateRun: models the same file systems.
- LibGen.RealPath: for paths that do not fit only the safety of the buffer is stated; the working directory is a parameter.
- LibGen.RealPathTwice: is stated for the same paths, of characters other than the null character.
- procfs: unlink, reading and writing entries, times, failed allocations of memory, and the 255 bytes that an entry has for its name, into which it is copied without a test: names are strings of any length.
- Procfs.FileSystem.CreateFile: an existing path is excluded; every caller but mount tests for it first.
- Procfs.FileSystem.DestroyFile: entries with open handles are excluded, which every caller tests first.
- Procfs.FileSystem.Mount: mounting where an entry exists is excluded, which the code does not test.
- Procfs.Session: calls for which kmalloc would return memory in use are passed over, and mounts are not among the calls.
- RoundRobin.RunQueue.PickNextTask: excludes queues without a pick; the assertion only logs, and the code writes through a null pointer.
- RoundRobin: the other scheduling policies, periodic task statistics and removal from the queue.
- Number: floating-point formatting and the parsing of format strings; the negation of LONG_MIN, undefined in C, is taken as its 32-bit pattern.
- LineDiscipline: the mode without ICANON, echo and signals.
- LineDiscipline.Terminal.Session: of lines over 255 characters, and of runs in which a full keyboard buffer forgets keystrokes, the state and the bytes are stated but not compared with all that arrived.
- Device drivers, interrupts, processes, signals, the hash map and the linked list of the kernel library, and time conversion are not modelled.
