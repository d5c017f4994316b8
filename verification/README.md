# RTV hypervisor kernel: verified memory management and boot synchronization

RTV is a small C hypervisor kernel for x86_64. This Dafny 4.11 project models the parts of it whose
correctness rests on invariants over whole runs, and proves what those parts are for.

* **The buddy allocator** (`kernel/mm/malloc.c`). `BuddyAllocator` keeps the fields of the C file: the pool as an
  array of 64-bit words with individually addressable first and last bytes, the bucket heads in the same memory, and
  the counters. Its methods are `malloc`, `free`, `buddy_split`, `buddy_try_merge` and the pool set-up, step by step,
  with the list links stored in the blocks they link. The ghost state is one binary tree of blocks (`BuddyTree`) and
  the bucket lists. `BuddyState` ties memory to tree: a free block ends in its bucket number, a live block begins with
  its bucket number and ends in 0xFF, every other byte is arbitrary. From that follow the one-byte buddy test, maximal
  coalescing, history independence, completeness of the out-of-memory panic, conservation, and that no call touches
  another client's data.
* **The linked lists** (`include/utils/list.h`). `CircularList` shows that the pointer writes of `list_add`,
  `list_add_tail` and `list_del` refine insertion and removal in a sequence and leave lists that share no word alone.
* **The bitmap words** (`include/utils/bits.h`, `utils/bits.c`). A `uint64_t` is its unsigned value, with the bitwise
  operators defined on binary digits; shifts and negation wrap at 2^64. `Bitmap` has the single-bit and range writes.
* **The physical frame allocator** (`kernel/mm/physical.c`). `PhysicalMemory` runs the word-skipping searches on the
  packed bitmap and is specified on plain sets of frames (`FrameSets`): those free and those handed out. `ByteRanges`
  is the rounding of byte ranges to pages in `uint64_t`. `FrameSearch` and `AlignedSearch` are the two multi-frame
  searches as functions of the bitmap. `ExactSearch` and `ExactAligned` say which run each takes on any bitmap, and
  `SearchLimits` for which requests they find a run that exists whatever the bitmap, and the first one stays inside the
  table.
* **The guest memory map** (`arch/x86_64/virt/mem.c`). `E820` is the loop of `virt_setup_e820` on top of it, and
  `GuestFrames` the frame-by-frame definition of what the guest is given. `RamdiskOrder` says for which ramdisks the
  entries are in order whatever frames are free.
* **Recursive page tables** (`arch/x86_64/mm/vm.c`). `Paging` is the address arithmetic, `PageTables` the 4-level walk of
  section 4.5 of the Intel SDM, volume 3A, over a memory of tables whose root maps itself in slot 511, with
  `vm_map_page_unrestricted` taking its tables from `PhysicalMemory`, starting from the tables of `boot.S`; `BootMap` says
  what those map. `MapWindows` is the search, mapping and unmapping of windows of slots; the 4 KB pair (slots 0 to 511 of
  a page table) and the 2 MB pair (slots 6 to 15 of the page directory) are the same code with other constants and
  instances of one class.
* **The ticket lock** (`include/utils/spinlock.h`) and **the MTRR rendezvous** (`init.c`, `smp.c`, `acpi.c`) are step
  systems over N CPUs: a run is any interleaving of the atomic steps, each sequentially consistent. For every run it is
  stated which steps can come next, so that the safety theorems are about all the interleavings of the C code.

Where an expected property is false of the code, the exact condition under which it holds is proved instead, for all
inputs and in both directions, with an input that breaks it:

| expected | exact condition | input that breaks it |
|---|---|---|
| `physical_free_range` frees the pages inside the range | `ByteRanges.FreeRangeExact` | `ByteRanges.FreeRangeUnderflow` |
| `physical_take_range` takes the pages touched | `ByteRanges.TakeRangeExact` | `ByteRanges.TakeRangeWraps` |
| `alloc_phys_frames` finds a run that exists | `SearchLimits.CompleteExactly` | `SearchLimits.Missed` |
| its scans stay inside the table | `SearchLimits.StaysInsideExactly`, on one bitmap `ExactSearch.SearchExactly` | `SearchLimits.LeavesTable` |
| `alloc_phys_frames_aligned` finds a run that exists | `SearchLimits.AlignedCompleteExactly` | `SearchLimits.AlignedMissed` |
| `vm_map_pages` finds a window that exists | `MapWindows.CompleteExactly` | `MapWindows.FindMissed` |
| unmapping slots keeps the other windows | `MapWindows.UnmapExactly` | slots that cut a live window |
| unmapping returns the mapped frame | `MapWindows.RecoveredWindow` | `MapWindows.XdComesBack`, `MapWindows.ZeroSkipped` |
| `vm_map_page_unrestricted` writes the tables of the walk | `PageTables.RecursiveMapExactly` | `PageTables.LowAddresses` |
| the entries of the guest map are in order | `RamdiskOrder.SortedExactly`, `RamdiskOrder.WrapsExactly` | `RamdiskOrder.RamdiskWraps` |
| `free` announces a double free | `Malloc.MessageExactly` | `BuddyTheorems.DoubleFreeMissed` |
| `malloc` finds the bucket of a request | `BuddyTheorems.RequestServed` | `BuddyTheorems.WrappedRequest` |
| `next_power2` ends | `BuddyTheorems.NextPower2Ends` | every v above 2^31 |
| the ticket lock excludes | `TicketLock.MutualExclusion` up to 65536 CPUs | `TicketLock.TooManyCpus` |
| the MTRR rendezvous never stops | `MtrrRendezvous.CanDieExactly` | `MtrrRendezvous.Deadlock` |
| the MTRR rendezvous can take every CPU through | `MtrrRendezvous.AllThroughExactly` | 256 CPUs |

Where comments and code differ, the model follows the code. `next_power2` is described as the least N with 2^N >= v but
never returns less than 5 (`kernel/mm/malloc.c:29-36`). `alloc_phys_frame` is described as returning 0 if it fails, and the
same line is all that describes the multi-frame searches, which can also fail with a large enough run free, or read
past the table (`kernel/mm/physical.c:159`, `kernel/mm/physical.c:200`). The boot code calls the high word it stores in
page-table entries "execute disable" but sets bit 60, not bit 63 (`arch/x86_64/boot/boot.S:132`). `free` announces a
double free, but in some states takes a block that is free for a live one (`BuddyTheorems.DoubleFreeMissed`); a block
that merged to its left when it was freed is always announced (`Malloc.BuddyAllocator.FreeTwice`).

## Model

| member | source | states |
|---|---|---|
| CircularList.InitListHead | include/utils/list.h:14-18 | a head becomes the well-formed list of itself and nothing else changes |
| CircularList.LinkBetween | include/utils/list.h:57-65 | inserting between any two neighbours keeps the ring and inserts the node at that position of the sequence |
| CircularList.ListAdd | include/utils/list.h:75-78 | the node becomes the first after the head; exactly four link words are written |
| CircularList.ListAddTail | include/utils/list.h:88-91 | the node becomes the last of the list |
| CircularList.ListDel | include/utils/list.h:40-55 | from its own two links alone, a node at any position is removed from the sequence and the rest keeps its order |
| CircularList.ListEmpty | include/utils/list.h:116-119 | the pointer comparison is true exactly for a list without nodes |
| CircularList.LinkedRing | include/utils/list.h:57-65 | the memory after the four writes is a ring for the sequence with the node inserted |
| CircularList.UnlinkedRing | include/utils/list.h:40-44 | the memory after the two writes is a ring for the sequence with the node removed |
| CircularList.LinkedElsewhere | include/utils/list.h:57-65 | linking in one list leaves every list that shares no word with it a ring of the same nodes |
| CircularList.UnlinkedElsewhere | include/utils/list.h:40-44 | the same for unlinking |
| CircularList.LinkUnlink | include/utils/list.h:40-65 | unlinking what was just added restores every word except the node's own links |
| BuddyTree.XorIsBuddy | kernel/mm/malloc.c:85-89 | flipping the size bit of a block's byte offset gives the offset of the other half of its parent, at every level |
| BuddyTree.ReleaseCanonical | kernel/mm/malloc.c:77-116 | releasing a block with all its merges leaves no two free buddies of one order |
| BuddyTree.ReleaseMerge | kernel/mm/malloc.c:84-110 | one merge turn does not change the final outcome: releasing the block is releasing the merged parent |
| BuddyTree.ReleaseStop | kernel/mm/malloc.c:111-113 | when the buddy is not free, or at the top order, releasing changes just the block |
| BuddyTree.ReleaseLive | kernel/mm/malloc.c:122-149 | after a release exactly the released block has stopped being live |
| BuddyTree.LiveDeterminesFree | kernel/mm/malloc.c:77-149 | two fully coalesced pools with the same live blocks are equal, so the free blocks depend on the live ones alone |
| BuddyTree.CarveLive | kernel/mm/malloc.c:202-216 | cutting a block out of a free one makes that block live and no other |
| BuddyTree.CarveRelease | kernel/mm/malloc.c:122-220 | malloc and then free of the result restores the very same blocks |
| BuddyTree.AllFree | kernel/mm/malloc.c:77-149 | a coalesced pool without live blocks is one free block |
| BuddyTree.LeafApart | kernel/mm/malloc.c:151-172 | distinct blocks, free or live, never overlap |
| BuddyTree.Conservation | kernel/mm/malloc.c:95-110 | the free and the live words of any pool add up to the whole pool |
| BuddyTree.WindowAligned | kernel/mm/malloc.c:151-172 | the block positions of an order are exactly the offsets in the pool that are multiples of the block size |
| BuddyTree.WindowInFree | kernel/mm/malloc.c:192-200 | in a coalesced pool a window clear of live blocks lies inside one free block |
| BuddyState.EndTag | kernel/mm/malloc.c:84-101 | boundary-tag soundness: the last byte of any block position, whatever stale bytes are inside, equals the order's entry exactly when a whole free block of that order is there |
| BuddyState.Detach | kernel/mm/malloc.c:95-101 | list_del of a bucket's block at any position keeps all buckets well formed, disjoint and equal to the free blocks |
| BuddyState.Attach | kernel/mm/malloc.c:106 | the same for list_add of a block that was in no bucket |
| BuddyState.UnlinkIdle | kernel/mm/malloc.c:95-101 | the words list_del writes hold no tag and belong to no live block |
| BuddyState.LinkIdleWrites | kernel/mm/malloc.c:106 | the same for the four words list_add writes |
| Malloc.BuddyAllocator.constructor | kernel/mm/malloc.c:222-272 | on a pool with arbitrary contents the set-up establishes the invariant with one free block of the top order |
| Malloc.NextPower2 | kernel/mm/malloc.c:29-43 | for every uint32_t v, the result is the least order from 5 up whose power of two is at least v, or the doubled word has become 0 and the loop never ends, which is so exactly beyond 2^31 |
| Malloc.EntryOrder | kernel/mm/malloc.c:188 | the bucket computed from that order is the one with the smallest blocks that hold the request and its 9 bytes of overhead |
| Malloc.AskedExact | kernel/mm/malloc.c:188 | a request that fits the pool is not wrapped, and the bucket malloc starts from is the one whose blocks just hold it with its overhead |
| Malloc.BuddyAllocator.FindBucket | kernel/mm/malloc.c:192-200 | the counters lead to the first non-empty bucket from the requested one up, or show that there is none |
| Malloc.BuddyAllocator.BuddySplit | kernel/mm/malloc.c:151-172 | the first block of a bucket is replaced by its halves at the front of the next lower bucket, tags, counters and lists included, and no live block changes |
| Malloc.BuddyAllocator.SplitDown | kernel/mm/malloc.c:202-205 | the splitting loop turns the first block of one bucket into a chain of halves down to the requested order |
| Malloc.BuddyAllocator.TakeFirst | kernel/mm/malloc.c:208-216 | the first block of a bucket becomes live with its preamble and USED postamble |
| Malloc.BuddyAllocator.Allocate | kernel/mm/malloc.c:174-220 | for every uint32_t size: the bucket search leaves the table or never starts exactly for the stated sizes; otherwise panic exactly when every bucket from the requested one up is empty, changing nothing; otherwise the new tree, the new lists in order, the returned address, and every word of every live block unchanged |
| Malloc.BuddyAllocator.Serve | kernel/mm/malloc.c:192-219 | from an entry of the table on, the block is cut from the first block of the first non-empty bucket, or every bucket from there up is empty and nothing changes |
| Malloc.FindEntry | kernel/mm/malloc.c:29-43 | the order's loop ends exactly up to 2^31, its bucket is in the table exactly up to 2^22, and is then the one with the smallest blocks that hold the request |
| Malloc.BuddyAllocator.BuddyIsFree | kernel/mm/malloc.c:85-92 | in every reachable state the byte test is true exactly when the buddy is a free block of that order |
| Malloc.BuddyAllocator.MergeTurn | kernel/mm/malloc.c:93-110 | one merge replaces the two halves by their parent in tree, lists, counters and tags |
| Malloc.BuddyAllocator.TryMerge | kernel/mm/malloc.c:76-116 | the loop ends in the released tree and lists if it merged, and in the unchanged state if it did not, in which case no merge was possible |
| Malloc.BuddyAllocator.Deallocate | kernel/mm/malloc.c:118-149 | for a block that is live or whose marks do not look live, the double-free message is printed exactly when it is not live, and then nothing changes; otherwise the tree is the fully coalesced one with its lists in the order of `BuddyTheorems.ReleasedFirst`, no word of another live block changes, and a block whose first merge was to its left has marks that look freed |
| Malloc.BuddyAllocator.ReadMarks | kernel/mm/malloc.c:130-136 | the two bytes read decide whether the message is printed, whatever the block is |
| Malloc.BuddyAllocator.FreeTwice | kernel/mm/malloc.c:77-149 | freeing a live block whose left buddy is free, twice: the second time is always announced and changes nothing |
| Malloc.Bury | kernel/mm/malloc.c:93-110 | a merge turn keeps the preamble of the block being freed once that lies inside the merged block, and leaves an entry in its last byte |
| Malloc.MessageExactly | kernel/mm/malloc.c:130-136 | about any block the message is right if and only if a live block starts there or the marks do not look live |
| Malloc.MarksTell | kernel/mm/malloc.c:130-136 | a live block always passes the double-free test, whatever its owner wrote into it, and its first byte is its entry |
| Malloc.BuddyAllocator.ClientWrite | kernel/mm/malloc.c:182-187 | a client writing anywhere in its payload keeps the invariant and every other block |
| Malloc.BuddyAllocator.RoundTrip | kernel/mm/malloc.c:122-220 | for every size, malloc then free restores the set of blocks exactly and leaves all live data alone |
| Malloc.BuddyAllocator.Reuse | kernel/mm/malloc.c:122-220 | free of a block whose buddy is not free and then malloc of a request of its order return the same address and restore every list in order |
| BuddyTheorems.PayloadsDisjoint | kernel/mm/malloc.c:182-219 | the bytes of two allocations lie inside the pool and are disjoint, preambles and postambles included |
| BuddyTheorems.OutOfMemory | kernel/mm/malloc.c:192-200 | all buckets from an order up are empty if and only if no size-aligned window of that order is clear of live blocks |
| BuddyTheorems.ReleasedFirst | kernel/mm/malloc.c:95-106 | a release puts the fully merged block, which is free then and holds the freed one, in front of its bucket; the buckets of the orders merged at most lose one block each, and all other blocks keep their order |
| BuddyTheorems.FreeBlocksFromLive | kernel/mm/malloc.c:77-220 | two allocators with the same live blocks have the same blocks in every bucket and the same counters, whatever calls led there |
| BuddyTheorems.EverythingFreed | kernel/mm/malloc.c:265-271 | when nothing is live the top bucket holds the 4 MB block and all others are empty |
| BuddyTheorems.CountIsLeaves | kernel/mm/malloc.c:95-107 | every counter is the length of its list and the number of free blocks of its order |
| BuddyTheorems.PoolConserved | kernel/mm/malloc.c:58 | the sum of counter times block size plus the live block sizes is always the whole pool |
| BuddyTheorems.RequestServed | kernel/mm/malloc.c:188-199 | in uint32_t arithmetic the order found is inside the bucket table and large enough if and only if size + 9 <= 2^22 |
| BuddyTheorems.WrappedRequest | kernel/mm/malloc.c:186-190 | for each of the sizes that wrap around in uint32_t, the order computed is 5 and the block found is smaller than the request |
| BuddyTheorems.NextPower2Ends | kernel/mm/malloc.c:38-41 | doubling a uint32_t reaches v if and only if v is at most 2^31; beyond, the loop never ends |
| BuddyTheorems.DoubleFreeMissed | kernel/mm/malloc.c:130-136 | a state that meets the whole invariant in which a free block passes the test for a live one, so that freeing it again is not reported |
| Bits.AndBit | include/utils/bits.h:19-23 | the bits of a conjunction are the conjunctions of the bits |
| Bits.OrBit | include/utils/bits.h:13-17 | the bits of a disjunction are the disjunctions of the bits |
| Bits.NotBit | include/utils/bits.h:21 | the bits of a complement |
| Bits.ShlBit | include/utils/bits.h:9 | the bits of a 64-bit left shift, those shifted out lost |
| Bits.ShrBit | kernel/mm/physical.c:172-176 | the bits of a right shift |
| Bits.GetBit | include/utils/bits.h:6-11 | masking with a shifted 1 is non-zero exactly when the bit is set |
| Bits.SetBit | include/utils/bits.h:13-17 | set_bit64 sets that bit and no other |
| Bits.ClearBit | include/utils/bits.h:19-23 | clear_bit64 clears that bit and no other |
| Bits.Isolate | kernel/mm/physical.c:169-171 | data & -data is the power of two of the lowest set bit |
| Bits.LowestBit | kernel/mm/physical.c:169-176 | the shift loop counts exactly the index of the lowest set bit |
| Bitmap.CheckBit | utils/bits.c:70-83 | true exactly when that bit of the map is set |
| Bitmap.SetOne | include/utils/bits.h:36-39 | one bit of the map is set, all others are unchanged |
| Bitmap.ClearOne | include/utils/bits.h:41-44 | one bit of the map is cleared, all others are unchanged |
| Bitmap.SetRange | utils/bits.c:24-45 | exactly the bits in [begin, begin + length) are set, for every offset and length |
| Bitmap.ClearRange | utils/bits.c:47-68 | exactly the bits in [begin, begin + length) are cleared |
| Bitmap.WordStep | utils/bits.c:32-39 | a full or head word moves the finished part of the range to the next word boundary |
| Bitmap.TailStep | utils/bits.c:41-44 | the mask shifted by (-end) & 63 finishes the range |
| ByteRanges.FreeRangeExact | kernel/mm/physical.c:32-47 | the pages freed are exactly those wholly inside the byte range if and only if it starts on a page or reaches the next page boundary |
| ByteRanges.FreeRangeUnderflow | kernel/mm/physical.c:42-44 | a one-byte range at address 1 asks for 2^52 - 1 pages |
| ByteRanges.TakeRangeExact | kernel/mm/physical.c:49-63 | in uint64_t arithmetic the pages taken are exactly those touched if and only if the range is not empty or starts on a page, and does not begin in the first page and end in the last one past its start |
| ByteRanges.TakeRangeWraps | kernel/mm/physical.c:49-63 | the range of all addresses but one takes no page; an empty range inside a page takes that page |
| ByteRanges.RoundingSafe | kernel/mm/physical.c:32-63 | of two disjoint byte ranges, freeing one never frees a page that taking the other takes |
| Physical.PhysicalMemory.FreeRange | kernel/mm/physical.c:32-47 | adds exactly the computed run of frames, which are the pages inside the range under the condition of `ByteRanges.FreeRangeExact`, or says that the run leaves the table; for a range below the limit without a frame that is handed out the invariant is kept |
| Physical.PhysicalMemory.TakeRange | kernel/mm/physical.c:49-63 | for every range, removes exactly the computed run of frames, which are the pages touched under the condition of `ByteRanges.TakeRangeExact`, and keeps the invariant |
| Physical.PhysicalMemory.SetLimit | kernel/mm/physical.c:70-81 | the limit in frames and the word count that covers it; the invariant holds from then on if and only if that lies in the table and every free frame and every frame handed out lies wholly below the limit |
| Physical.PhysicalMemory.AllocFrame | kernel/mm/physical.c:159-186 | the lowest free frame from 256 up, not handed out before, leaves the free set and joins the owned one; 0 exactly when there is none |
| Physical.PhysicalMemory.AllocFrameLowmem | kernel/mm/physical.c:292-318 | the lowest free frame below 1 MB leaves the free set and joins the owned one; if it is frame 0, the result is that of a failure |
| Physical.PhysicalMemory.FreeFrame | kernel/mm/physical.c:320-325 | an owned frame goes back to the free set |
| Physical.PhysicalMemory.FreeFrameRun | kernel/mm/physical.c:327-332 | a run of owned frames goes back |
| Physical.PhysicalMemory.AllocFramesAligned | kernel/mm/physical.c:228-290 | for every power-of-two alignment the result is that of the specified search; the frames are aligned, were all free and below the limit, and are exactly those removed; they are the first aligned run among those whose start is looked at |
| Physical.PhysicalMemory.FindAligned | kernel/mm/physical.c:241-286 | the loops compute the search of the specification for every power-of-two alignment and terminate |
| Physical.PhysicalMemory.AllocFrames | kernel/mm/physical.c:188-226 | the result is that of the specified search, the scan that leaves the table included; the frames found were all free from frame 256 up and are exactly those removed; they are the first run among those whose start is looked at, which is every start unless it lies right behind zero words that a run ends right before; exact first fit for one frame; the scan leaves the table exactly if no run is taken and the last free frame is the last of the table or neither of the last two of its word |
| Physical.PhysicalMemory.FindFrames | kernel/mm/physical.c:195-222 | the loop computes the search of the specification, its unbounded scans leaving the table included |
| FrameSearch.SearchSound | kernel/mm/physical.c:195-222 | what the search finds is a run of free frames at or after its start |
| FrameSearch.SearchSeen | kernel/mm/physical.c:195-222 | a fit that is not right behind a word without free frames is found, unless an earlier one is |
| FrameSearch.SearchOne | kernel/mm/physical.c:195-222 | a search for one frame finds the lowest free one and never leaves the table |
| SearchLimits.CompleteExactly | kernel/mm/physical.c:188-226 | on all bitmaps of a given size and limit the search finds a run of num frames whenever there is one if and only if num is 1 or no run fits at or above frame 384 |
| SearchLimits.Missed | kernel/mm/physical.c:216-220 | the bitmap it fails on: a lone free frame at the end of a word, a zero word, and the run right behind it |
| SearchLimits.StaysInsideExactly | kernel/mm/physical.c:195-222 | on all bitmaps of a given size and limit no scan leaves the table if and only if at most one frame is asked for or there is no memory past frame 256 |
| SearchLimits.LeavesTable | kernel/mm/physical.c:200-204 | with frame 256 the only free one, every search for more than one frame leaves the table |
| ExactSearch.SearchExactly | kernel/mm/physical.c:195-222 | on any bitmap the search takes the first run whose start it looks at, and finds nothing exactly if there is none; then the scan has left the table if and only if the last free frame is the last of the table, or neither the last nor the last but one of its word |
| AlignedSearch.AlignedSound | kernel/mm/physical.c:241-286 | what the aligned search finds is an aligned run of free frames at or after its start |
| AlignedSearch.AlignedSeen | kernel/mm/physical.c:241-286 | an aligned fit that the search sees is found, unless an earlier one is |
| AlignedSearch.AlignedFits | kernel/mm/physical.c:228-290 | from frame 256 up no aligned start that is seen fits before the result, and from 64 frames up every start is seen |
| SearchLimits.AlignedCompleteExactly | kernel/mm/physical.c:228-290 | on all bitmaps of a given size and limit the aligned search finds an aligned run whenever there is one if and only if the alignment is at least 64 frames or at least the run, or no run fits at or above frame 384 |
| SearchLimits.AlignedMissed | kernel/mm/physical.c:262-284 | the bitmap it fails on: one unit of the alignment free at the end of a word, a zero word, and the run right behind it |
| ExactAligned.AlignedExactly | kernel/mm/physical.c:241-286 | on any bitmap and for every power-of-two alignment the search takes the first aligned run whose start it looks at, and finds nothing exactly if there is none |
| Physical.PhysicalMemory.NextFreeRange | kernel/mm/physical.c:101-157 | the range reported is the first run of free frames at or after the page of current and is maximal on the right; size 0 exactly means none; the search reads past the table exactly when it finds nothing from a word below the limit and the limit fills the table |
| Physical.PhysicalMemory.NextRun | kernel/mm/physical.c:104-157 | its four phases together refine the bit-by-bit definition of the first run |
| Physical.PhysicalMemory.ExtendRun | kernel/mm/physical.c:145-156 | the full-word and trailing-ones phase extends a run to its first taken frame |
| E820.SetupE820 | arch/x86_64/virt/mem.c:32-104 | terminates; of the free frames exactly those are listed and taken whose run starts below the Linux entry point, or starts past the kernel and holds their whole large page; memory entries are sorted, disjoint and have their shape past the kernel; with the ramdisk, whose end is a sum of two uint32_t, all entries are sorted under `E820.InOrder`, and are not on the bitmaps of `E820.Early`; a ramdisk that ends below the limit is always listed; the two frames right before the first run are listed if that starts below the Linux entry point |
| E820.MergeRamdisk | arch/x86_64/virt/mem.c:47-56 | the ramdisk is listed once, as soon as the search passes the computed end |
| E820.MapRun | arch/x86_64/virt/mem.c:61-100 | a run is clipped, listed and taken, and the cursor strictly advances |
| E820.ClipBounds | arch/x86_64/virt/mem.c:61-91 | what is listed stays inside the run apart from the two low frames, is page aligned and is made of large pages past the kernel |
| E820.ClippedBelow | arch/x86_64/virt/mem.c:61-77 | rounding a start up to a large page never passes a large-page boundary after the run |
| E820.EntryApart | arch/x86_64/virt/mem.c:47-56 | an entry of given frames lies wholly before the ramdisk or wholly behind it |
| E820.PastRamdisk | arch/x86_64/virt/mem.c:39-56 | under `E820.InOrder` the entry of a run found past the computed end does not lie before the ramdisk |
| E820.LowFirst | arch/x86_64/virt/mem.c:81-90 | an entry that begins two pages before a first run below the Linux entry point, as the first turn makes it, lists the two low frames |
| RamdiskOrder.SortedExactly | arch/x86_64/virt/mem.c:39-56 | over all bitmaps the ramdisk is never listed before an entry that lies before it if and only if `E820.InOrder` holds of its place, the computed end and the kernel's end |
| RamdiskOrder.WrapsExactly | arch/x86_64/virt/mem.c:39-40 | for ramdisks of at most 4 GB less a large page that holds for kernels of every size if and only if the ramdisk is empty or the 32-bit sum does not wrap |
| RamdiskOrder.RamdiskWraps | arch/x86_64/virt/mem.c:39-40 | a 2 MB ramdisk that ends at 4 GB has the computed end 0 and is listed out of order, whatever the kernel's size |
| E820.AheadUntouched | arch/x86_64/virt/mem.c:98-99 | frames from the cursor on are free exactly if they were free at the start |
| E820.SettleTurn | arch/x86_64/virt/mem.c:43-101 | after one turn the frames below the new cursor are free exactly if they were free and are not to be given to the guest |
| GuestFrames.SettleBelow | arch/x86_64/virt/mem.c:81-99 | a run that starts below the Linux entry point is given whole, the two low frames included |
| GuestFrames.SettleKernel | arch/x86_64/virt/mem.c:78-80 | nothing of a run that starts inside the kernel is given |
| GuestFrames.SettlePast | arch/x86_64/virt/mem.c:61-77 | past the kernel exactly the whole large pages of a run are given, whether or not the rounded start lies inside the run |
| GuestFrames.StartOf | arch/x86_64/virt/mem.c:44-45 | the run reported is a maximal run of the original bitmap, or begins at a large page past the kernel |
| Paging.StructBit | arch/x86_64/mm/vm.c:28-51 | every bit of a structure address: zeros in the page offset, the moved-down indices of the address, ones above |
| Paging.StructIndex | arch/x86_64/mm/vm.c:28-51 | the indices of a structure address: slot 511 once per missing level, then the indices of the address |
| Paging.StructCanonical | arch/x86_64/mm/vm.c:28-51 | structure addresses are canonical and page aligned |
| Paging.IndexBit | arch/x86_64/mm/vm.c:201-228 | each index mask and shift selects the nine bits of its level |
| Paging.IndexBound | arch/x86_64/mm/vm.c:201-228 | table indices stay below 512 |
| BootMap.IndexDigit | arch/x86_64/mm/vm.c:201-228 | the index of a level is that digit of the address to the base 512 |
| PageTables.RecursiveMap | arch/x86_64/mm/vm.c:28-51 | with slot 511 of the root mapping the root, the walk of the structure address of v at any of the four levels ends in the very table the walk of v uses there, while it meets no large page |
| PageTables.RecursiveMapExactly | arch/x86_64/mm/vm.c:28-51 | the structure address of v always reads the entry that the walk of v uses one level up, and its page is the next table of the walk if and only if that entry is not a large page |
| PageTables.LowAddresses | arch/x86_64/mm/vm.c:219-228 | below 2 MB, when a large page at frame 0 is mapped there, the structure address reaches frame 0, which is the table of no walk |
| PageTables.BootLargeFirst | arch/x86_64/boot/boot.S:95-104 | that is so in the tables of the boot code |
| PageTables.SelfPath | arch/x86_64/boot/boot.S:161-165 | walking the self-map slot any number of times stays at the root |
| PageTables.AddressSpace.constructor | arch/x86_64/boot/boot.S:95-165 | the tables the boot code builds, with the self entry and its bit 60, the large page and the kernel's two page tables of any contents, meet the invariant |
| PageTables.BootTree | arch/x86_64/boot/boot.S:95-165 | those tables form a tree in which distinct paths lead to distinct frames |
| PageTables.BootBacked | arch/x86_64/boot/boot.S:95-165 | none of them is a free frame, and every free frame reads as zero |
| PageTables.MarkedEntry | arch/x86_64/boot/boot.S:162-165 | an entry leads to its frame with or without bit 60 set |
| BootMap.BootLeaf | arch/x86_64/boot/boot.S:95-165 | the boot tables map the first 2 MB by the large page, the 4 MB from 0x200000 on page by page by the entries of the kernel's two page tables in order, and no other address outside the self-map slot |
| PageTables.AddressSpace.TableOf | arch/x86_64/mm/vm.c:200-228 | reading through the structure address reaches the table that the walk of v uses |
| PageTables.AddressSpace.EnsureTable | arch/x86_64/mm/vm.c:200-225 | one level: the next table exists afterwards, or frames ran out, or a large page is in its place; the tables stay a tree without shared frames, and no address is mapped differently by a page or by a large page; every table entry that is new is present and writable and otherwise holds a frame address only, and only entries on the walk of v are written |
| PageTables.AddressSpace.EnsureTables | arch/x86_64/mm/vm.c:200-225 | all three levels together, with nothing changed if something maps v or the tables existed; a large page is met exactly when v lies in one; new table entries are present and writable, and only entries on the walk of v are written |
| PageTables.AddressSpace.MapPage | arch/x86_64/mm/vm.c:188-234 | the walk of v yields frame or flags, and every address outside the page and the self-map slot is mapped by the same entry at the same level as before, large pages included; every frame taken from the allocator is now a table on the walk of v and no frame became free; the entry is found in use exactly when v was mapped by a page, and the walk ends at a large page exactly when v lies in one; frames run out only when none is free; the tables stay an unshared tree; every new entry above the page has the present and writable bits and a frame address and no other bit, and only entries on the walk of v are written |
| PageTables.LinkNodes | arch/x86_64/mm/vm.c:202-207 | entering an unused zero table at a missing entry changes the table found on no path except the new one |
| PageTables.LinkTree | arch/x86_64/mm/vm.c:202-225 | it keeps the tables a tree in which distinct paths lead to distinct frames |
| PageTables.LinkLeaf | arch/x86_64/mm/vm.c:202-225 | it maps no address differently, by a page or by a large page |
| PageTables.LinkEntry | arch/x86_64/mm/vm.c:202-225 | it gives the walks through the slot one more entry and keeps every present entry at all four levels of every walk |
| PageTables.LeafDown | arch/x86_64/mm/vm.c:200-231 | what maps an address is found from any table on its walk |
| PageTables.WriteLeafOf | arch/x86_64/mm/vm.c:227-231 | writing a page-table entry changes what maps that page and no other address |
| PageTables.WriteEntryAt | arch/x86_64/mm/vm.c:227-231 | it changes that entry and no other entry of any walk |
| PageTables.LeafPte | arch/x86_64/mm/vm.c:227-231 | an address is mapped by a page exactly when its page-table entry is present |
| PageTables.LinkViews | arch/x86_64/mm/vm.c:202-225 | linking a fresh table keeps what maps every address |
| PageTables.LinkGrown | arch/x86_64/mm/vm.c:202-225 | the walk keeps its tables and gains exactly the frame that was taken |
| PageTables.TableEntry | arch/x86_64/mm/vm.c:206-224 | a frame address with the present and writable bits is a present entry for that frame |
| PageTables.TableWord | arch/x86_64/mm/vm.c:206-224 | a frame address with the present and writable bits has those two bits and the address and no other bit |
| MapWindows.FindSound | arch/x86_64/mm/vm.c:113-137 | the search returns only windows whose entries are all not present |
| MapWindows.CompleteExactly | arch/x86_64/mm/vm.c:113-137 | it finds a window whenever there is one if and only if num is 1 or at least the number of slots less one |
| MapWindows.FindMissed | arch/x86_64/mm/vm.c:133-136 | the layout it misses: the candidate right behind a failed run is skipped |
| MapWindows.FindExactly | arch/x86_64/mm/vm.c:113-137 | on any slots the search finds the first window among those it looks at, and nothing exactly if it looks at none |
| MapWindows.FindFirst | arch/x86_64/mm/vm.c:113-137 | a window that is not right behind the end of a run is found, or an earlier one is |
| MapWindows.AddWindow | arch/x86_64/mm/vm.c:124-128 | filling a free window keeps live windows disjoint and equal to the present entries |
| MapWindows.RemoveWindow | arch/x86_64/mm/vm.c:173-182 | clearing a live window removes it and no other |
| MapWindows.UnmapExactly | arch/x86_64/mm/vm.c:173-182 | clearing slots keeps the live windows exact if and only if they are a live window or meet none |
| MapWindows.Slots.constructor | arch/x86_64/mm/vm.c:423-430 | whatever the slots held, the loops clear exactly them, and then no window is live |
| MapWindows.Slots.FindWindow | arch/x86_64/mm/vm.c:113-137 | the two nested loops compute the search of the specification while the bound does not underflow; where it does, nothing is found and, except for the largest num, the search reads past the last slot |
| MapWindows.Slots.WriteWindow | arch/x86_64/mm/vm.c:124-128 | consecutive frames go into consecutive slots, and nothing else is written |
| MapWindows.Slots.MapWindow | arch/x86_64/mm/vm.c:317-360 | for every num and all flags, fills the first free window among those the search looks at, which is every one not right behind the end of a run, or changes nothing if there is none; the window was wholly not present and apart from all live ones; with the present bit it is a live window from then on; says when the search reads past the last slot |
| MapWindows.Slots.UnmapWindow | arch/x86_64/mm/vm.c:362-386 | clears exactly the slots and returns their first non-zero frame; the live windows stay exact if and only if the slots are one of them or meet none |
| MapWindows.Slots.RoundTrip | arch/x86_64/mm/vm.c:99-186 | mapping and then unmapping restores the table and the live windows exactly, and returns the mapped frame if and only if it is recoverable |
| MapWindows.RecoveredFrame | arch/x86_64/mm/vm.c:174-175 | one entry gives its frame back if and only if the flags set no bit under the mask that the frame lacks |
| MapWindows.RecoveredWindow | arch/x86_64/mm/vm.c:170-185 | unmapping a window gives back the mapped frame if and only if it is a page address, the flags set no bit under the mask that it lacks, and it is not 0 unless it is the only one |
| MapWindows.XdComesBack | arch/x86_64/mm/vm.c:174-175 | a page mapped with the execute-disable flag comes back with bit 63 set |
| MapWindows.ZeroSkipped | arch/x86_64/mm/vm.c:174-175 | two pages mapped at frame 0 come back as frame 4096 |
| MapWindows.PageMasks | arch/x86_64/include/vm.h:8-17 | each page mask keeps the page size it goes with |
| TicketLock.StepRefines | include/utils/spinlock.h:24-34 | with at most 65536 CPUs the wrapping tickets allow the same steps as a plain queue and lead to corresponding states |
| TicketLock.RunRefines | include/utils/spinlock.h:24-34 | the same for whole runs |
| TicketLock.MutualExclusion | include/utils/spinlock.h:24-34 | in every interleaving at most one CPU is inside |
| TicketLock.ExactlyOneCanEnter | include/utils/spinlock.h:26-28 | when tickets are out and nobody is inside, exactly one CPU can enter |
| TicketLock.Fifo | include/utils/spinlock.h:24-34 | those waiting and then those taking tickets are, in that order, those entering and then those still waiting |
| TicketLock.EntersInTicketOrder | include/utils/spinlock.h:24-34 | the order of entering is a prefix of the order of taking tickets |
| TicketLock.BoundedBypass | include/utils/spinlock.h:24-34 | fewer than n entries happen between a CPU's ticket and its own entry |
| TicketLock.TakePossible | include/utils/spinlock.h:26 | after every run a CPU can take a ticket exactly when it does not use the lock, and then it waits and no other CPU has moved |
| TicketLock.EnterPossible | include/utils/spinlock.h:27-28 | with at most 65536 CPUs, after every run a CPU can enter exactly when nobody is inside and it took the oldest ticket not yet used |
| TicketLock.LeavePossible | include/utils/spinlock.h:31-34 | after every run a CPU that is inside can leave, whether or not another one waits, and is idle then |
| TicketLock.Drains | include/utils/spinlock.h:24-34 | with at most 65536 CPUs, every run goes on, without new tickets, to one after which nobody uses the lock |
| TicketLock.TooManyCpus | include/utils/spinlock.h:11-13 | with any more than 65536 CPUs there is a run with two of them inside |
| MtrrRendezvous.StepInv | arch/x86_64/boot/init.c:195-206 | every atomic step of every CPU keeps the count, the boot progress and the order of phases consistent |
| MtrrRendezvous.RunInv | arch/x86_64/smp/smp.c:111-121 | so does every interleaving |
| MtrrRendezvous.FirstWait | arch/x86_64/boot/init.c:198-199 | when mtrr_sync equals g_cpus, even before g_cpus was lowered, every CPU not declared failed has arrived |
| MtrrRendezvous.SecondWait | arch/x86_64/boot/init.c:203-206 | when a CPU that has left the count sees 0, every CPU not declared failed has finished |
| MtrrRendezvous.Rendezvous | kernel/acpi.c:43-54 | over whole runs and any number of CPUs, none configures before all arrived and none proceeds before all finished |
| MtrrRendezvous.Deadlock | arch/x86_64/smp/smp.c:111-121 | for every n of at least two, a run of n CPUs after which some are not through and no step is possible |
| MtrrRendezvous.CanDieExactly | arch/x86_64/smp/smp.c:111-121 | some run from the start gets stuck with a CPU neither through nor given up if and only if there are at least two CPUs |
| MtrrRendezvous.BootPossible | kernel/acpi.c:47-52 | after every run the CPU being booted can start once, and its boot is then over; it is given up only while it has not started |
| MtrrRendezvous.LowerPossible | kernel/acpi.c:53 | g_cpus is lowered exactly once, when every CPU has been booted or given up |
| MtrrRendezvous.ArrivePossible | arch/x86_64/smp/smp.c:111-113 | after every run an AP that runs can be counted whether or not others are still being booted, the BSP once it has lowered g_cpus |
| MtrrRendezvous.PassFirstPossible | arch/x86_64/smp/smp.c:114 | after every run the first wait of a CPU can end exactly when g_cpus is lowered, fewer than 256 CPUs are left and each of them is counted |
| MtrrRendezvous.DepartPossible | arch/x86_64/smp/smp.c:116-120 | after every run a CPU that configures can finish, and one that has finished can leave the count |
| MtrrRendezvous.PassSecondPossible | arch/x86_64/smp/smp.c:121 | after every run the second wait of a CPU can end exactly when no CPU is counted |
| MtrrRendezvous.StepMoves | arch/x86_64/smp/smp.c:111-121 | every step moves its own CPU to the next phase and no other |
| MtrrRendezvous.EarlyArrivals | arch/x86_64/smp/smp.c:111-114 | for every n of at least two, a run after which all APs wait while g_cpus has not been lowered |
| MtrrRendezvous.EarlyFinish | arch/x86_64/smp/smp.c:111-121 | from that state on, up to 255 CPUs all get through |
| MtrrRendezvous.AllThroughExactly | arch/x86_64/smp/smp.c:111-121 | some run takes all n CPUs through if and only if n is below 256 |

## Left out

- Malloc.BuddyAllocator.Allocate: an order outside the bucket table and the endless `next_power2` are outcomes of their own, about which the C function promises nothing.
- Malloc.BuddyAllocator.Deallocate: not for a free block that passes for a live one (`Malloc.MessageExactly`); what `free` then does to the pool is not modelled.
- Malloc.BuddyAllocator.constructor: the physical frames and page mappings under the pool are taken as given; the bucket sizes are a function of the entry instead of a stored field, and the counters are unbounded.
- Physical.PhysicalMemory.FreeRange: where the length underflows and the run leaves the table, nothing is claimed of the C function.
- ExactSearch.SearchExactly: for at least one frame, as is `ExactAligned.AlignedExactly`; a request for none removes none.
- Physical.PhysicalMemory.AllocFrames: a scan that leaves the table is an outcome of its own, about which the C function promises nothing.
- Physical.PhysicalMemory.NextFreeRange: the same for the word it reads past a full table.
- E820.SetupE820: the table's capacity of 128 entries and its uint8_t counter are not modelled; the ramdisk, on whole large pages, and the two low frames are assumed taken before the call, and the limit not to fill the bitmap.
- PageTables.AddressSpace.MapPage: assumes free frames read as zero, since new tables are not cleared; not for addresses in the self-map slot; nothing is claimed once the code takes the data of a large page for a table (`PageTables.LowAddresses`); physical addresses stay below 2^52.
- MapWindows.Slots.MapWindow: nothing is claimed of a search that reads past the last slot; the frames of a window stay below 2^64. `Slots.RoundTrip` is for flags with the present bit.
- MtrrRendezvous.Rendezvous: assumes that a CPU declared failed never runs; for which numbers of CPUs it is live is `MtrrRendezvous.CanDieExactly`.
- The locks around the allocators and the page tables: each call is one step under its lock, and `TicketLock` is the lock.
- `spin_trylock`: has no caller and its compare-and-swap advances the wrong half of the lock.
- `vm_map_page`, `vm_unmap_page` and the single large-page variants: windows of one slot.
- `vm_map_large_page_unrestricted`: the same walk one level shorter.
- TLB invalidation, caches and the weak memory model; every atomic operation is one sequentially consistent step.
- `virt_setup_linux`, `virt_pg_table_setup`, VMX, APIC, interrupt tables, ACPI and Multiboot parsing, and the console.
- Diagnostic printing: `check_buddy_table`, `physical_check_table`, `vm_check_mapping`.
