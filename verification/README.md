# NiceTop OS: memory, storage and the small protocols around them

This project models the memory and storage stack of the NiceTop kernel and the protocols beside it, and proves
what the code keeps over every run. `dafny verify dfyconfig.toml` checks everything.

- `Memory`, `BlockList`: memory as an array of bytes, 32-bit words in it, and the list of 12-byte block headers
  (size, is_free, next; the kernel is built with `-m32`) that both kernel heaps keep inside the memory they
  manage. Sequences of blocks are the simple form; the methods work on the bytes.
- `LiveHeap`: `kernel/heap.c`. The blocks tile the heap and no two neighbours are free, so the set of live
  blocks determines the whole heap (`Canonical`). Everything else is read off that set: when allocation fails,
  where it allocates, that frees commute, that malloc then free changes nothing.
- `CStrings`, `FileStore`, `FileMap`, `FileScript`, `Boot`: `kernel/vfs.c` on top of that heap. `FileStore` is the
  code over slots whose data lives in the same memory as the headers; `FileMap` and `FileScript` show that users
  see a map from names to contents; `Boot` is the state after start-up.
- `GrowingHeap`: `kernel/disabled/memory/heap.c`, where expansion leaves gaps that no block covers, and where the
  heap is sound only while the frame allocator and the page tables give every byte a physical byte of its own.
- `Sets`, `Pmm`, `PageTables`, `Paging`: the bitmap frame allocator as a set of frames, and page tables against the
  table walk of the processor.
- `RxRing`, `KeyRing`: the e1000 receive ring and the keyboard buffer. Driver code runs step by step; the device
  or the interrupt handler acts between any two steps, through a parameter that says what happens in each gap.
- `Checksum`, `DottedQuad`: the Internet checksum and the IPv4 printer and parser of `kernel/net.c`.
- `Vga`: the scrolling text screen as the last 25 rows of a terminal that forgets nothing.

Ghost fields (`blocks`, `terminal`, `accepted`, ...) hold the simple form; each `Valid()` ties them to the real
fields, so a method's contract about the simple form is a contract about memory.

Where the code falls short of what one would expect of it, the model keeps the code and states exactly when it
does meet the expectation:

- `LiveHeap.LargeEnough`: rounding wraps above 0xFFFFFFFC (`LiveHeap.WrappedRequestServed` is an input).
- `FileMap.DuplicateCheckExact`: names over 31 characters.
- `Pmm.InitCoversExactly`: a partial last bitmap word.
- `Pmm.Pmm.InitRegion`, `Pmm.Pmm.DeinitRegion`, `Pmm.Pmm.FreeBlock`: the counter moves unconditionally.
- `Pmm.SuccessesExact`, `Pmm.Pmm.AllocUntilNull`: NULL is also the address of frame 0 (`Pmm.FrameZeroLooksFailed`).
- `PageTables.MapsExactly`, `Paging.Paging.MakeTable`, `Paging.Paging.UnmapPage`, `Paging.Paging.IdentityMap`: with no
  frame left, or frame 0 handed out as a table, all tables that are missing share frame 0, which is cleared for each of
  their pages (`Paging.SecondPageTakesOver` and `Paging.NotUnmapped` are inputs).
- `Paging.Paging.MapRange`, `GrowingHeap.GrowingHeap.Kmalloc`: a failed frame allocation is not noticed.
- `PageTables.InitSelfMaps`, `PageTables.RangeSelfMaps`: tables in frames that are not mapped to themselves, or that the
  heap maps over.
- `GrowingHeap.ExpansionExact`: the end of the heap wraps at 4 GB.
- `RxRing.OneRingExact`, `RxRing.Ring.constructor`, `RxRing.NothingSeen`, `RxRing.AfterRestart`: the descriptors come
  from kmalloc, which aligns to 4 (`Boot.RingAtBoot`), and rx_cur survives a second initialisation: kernel/kernel.c:455,
  487 and 536 each have a flag of their own for the first use of the network.
- `Checksum.ReferenceExact`: sums above 131074 bytes.

`FileStore.Vfs.Write` keeps the outcome of a failed allocation: the old data is gone and `size` is stale.

The repository's README.md describes an x86_64 system; Makefile:11 builds 32-bit code, and the model follows it.

## Model

| member | source | states |
|---|---|---|
| Memory.StoreWord | kernel/heap.c:9-13 | a header word is written in four little-endian bytes, is read back as written, and no other byte or disjoint word changes |
| BlockList.CarveFacts | kernel/heap.c:37-53 | handing out a free block, split or not, keeps the list ordered and adds exactly one live block, of bounded size, that was not live before |
| BlockList.CarveNeighbours | kernel/heap.c:42-51 | splitting leaves no two neighbouring free blocks if there were none |
| BlockList.ReleaseFacts | kernel/heap.c:91-113 | freeing, with both merges, keeps the list ordered and removes exactly the freed block from the live set |
| BlockList.ReleaseNeighbours | kernel/heap.c:97-112 | two-sided coalescing leaves no two neighbouring free blocks |
| BlockList.ReleaseFootprint | kernel/disabled/memory/heap.c:170-185 | freeing neither makes nor loses bytes of blocks, even when it merges across a gap |
| BlockList.Respliced | kernel/heap.c:43-50 | rewriting the headers within the extent of some blocks gives the stored list with just those blocks replaced, and disturbs no live payload elsewhere |
| BlockList.BlockList.FindFit | kernel/heap.c:34-56 | the list walk ends and stops at the first free block that is large enough, remembering the block before it |
| BlockList.BlockList.Claim | kernel/heap.c:38-53 | the headers in memory become those of the carved list; payloads of live blocks and all bytes outside the heap stay |
| BlockList.BlockList.Free | kernel/heap.c:94-112 | the headers in memory become those of the released list; payloads of the other live blocks and all bytes outside the heap stay |
| BlockList.BlockList.FindPrevious | kernel/heap.c:104-107 | the second walk finds the block before the given one, or NULL at the head |
| LiveHeap.Heap.constructor | kernel/heap.c:18-26 | heap_init leaves one free block filling the heap and touches nothing outside it |
| LiveHeap.Heap.Kmalloc | kernel/heap.c:28-60 | on the bytes of memory, kmalloc is the allocation of MallocExact, keeps the invariant, and disturbs no live payload |
| LiveHeap.Heap.Kfree | kernel/heap.c:91-113 | on the bytes of memory, kfree is the release of FreeExact, keeps the invariant, and disturbs no remaining live payload |
| LiveHeap.Heap.Stats | kernel/heap.c:116-131 | in every valid state the total is 1 MB, used is the number of addresses that live blocks take, headers included, and free_blocks the number of free blocks |
| LiveHeap.UsedIsOccupied | kernel/heap.c:120-128 | the sum that heap_stats builds over the list is the number of addresses in the extents of the live blocks |
| LiveHeap.MallocRaises | kernel/heap.c:28-60 | a successful kmalloc raises used by the size of its block and 12, a failed one leaves the heap as it is |
| LiveHeap.FreeLowers | kernel/heap.c:91-113 | kfree lowers used by the size of the freed block and 12, whatever it merges |
| LiveHeap.FirstFitExact | kernel/heap.c:34-56 | first fit finds nothing exactly when no gap between live blocks holds a header and the request; otherwise it finds the lowest such place |
| LiveHeap.Canonical | kernel/heap.c:91-113 | two heaps that satisfy the invariant and have the same live blocks are equal |
| LiveHeap.AlignExact | kernel/heap.c:31-32 | the rounded size is the least sufficient multiple of 4, except that the last three sizes wrap to 0 |
| LiveHeap.MallocExact | kernel/heap.c:28-60 | kmalloc returns NULL exactly for size 0 or when no gap fits; otherwise it adds one block at the lowest fitting place, at most 28 bytes larger than the rounded size, and of exactly that size if and only if the gap holds just that or at least 29 bytes more; it changes no other live block |
| LiveHeap.FreeExact | kernel/heap.c:91-113 | kfree keeps the invariant and removes exactly the block of its argument from the live set |
| LiveHeap.MallocThenFree | kernel/heap.c:37-53 | freeing what kmalloc just returned restores the block list, whether or not the block was split |
| LiveHeap.FreeOrderIrrelevant | kernel/heap.c:91-113 | freeing the same pointers in any two orders gives the same heap |
| LiveHeap.FreeEverything | kernel/heap.c:91-113 | freeing all live pointers, in any order, gives the heap that heap_init builds |
| LiveHeap.FreeMakesRoom | kernel/heap.c:91-113 | after a block is freed, a request that fits in it succeeds, whatever the fragmentation |
| LiveHeap.RunAccounted | kernel/heap.c:28-113 | over every run of kmalloc and kfree, the heap stays tiled and coalesced, live blocks and outstanding requests match one to one, no block is more than 28 bytes larger than its rounded request, and a run that frees everything ends in the initial heap |
| LiveHeap.StepAccounted | kernel/heap.c:28-113 | no call changes the address or the size of a live block other than the one it frees |
| LiveHeap.InitAccounted | kernel/heap.c:18-26 | the heap that heap_init builds satisfies the invariant that every run keeps |
| LiveHeap.LargeEnough | kernel/heap.c:31-32 | in every reachable state a live block is as large as requested if and only if the request was at most 0xFFFFFFFC |
| LiveHeap.WrappedRequestServed | kernel/heap.c:31-32 | a request above 0xFFFFFFFC is not refused: on the fresh heap it gets a block of no bytes |
| LiveHeap.PayloadWrite | kernel/heap.c:53 | a client that writes inside its own block damages no header and no other live payload |
| FileStore.StrLen | kernel/vfs.c:9-13 | the number of characters before the first NUL |
| FileStore.StrCopy | kernel/vfs.c:15-22 | the copy is a terminated string with the first max - 1 characters of the source, or all of them |
| FileStore.StrCmp | kernel/vfs.c:24-31 | zero exactly for equal strings |
| FileStore.Vfs.Search | kernel/vfs.c:60-64 | the first slot in use with exactly this name, or none |
| FileStore.Vfs.Create | kernel/vfs.c:58-79 | fails exactly for an existing name or a full table; otherwise the first unused slot becomes an empty file under the stored (cut) name; data still attached to the slot leaks, and nothing else changes |
| FileStore.Vfs.Open | kernel/vfs.c:81-88 | the first slot in use with exactly this name, or none |
| FileStore.Vfs.Write | kernel/vfs.c:90-109 | fails exactly for more than 4096 bytes or when no gap of the heap without the old data holds the new; changes the contents of this file only, and puts a NUL behind them, though blocks are split and merged beneath the others; a failed allocation loses the old data and leaves size stale |
| FileStore.Vfs.Read | kernel/vfs.c:111-122 | returns the contents cut to the requested size and a NUL, leaves the rest of the buffer, and -1 exactly without data |
| FileStore.Vfs.Delete | kernel/vfs.c:124-137 | empties the slot of this name, frees exactly its block, and leaves every other file and client as it was |
| FileStore.Vfs.GetFileCount | kernel/vfs.c:152-158 | the number of files |
| FileStore.Vfs.GetFile | kernel/vfs.c:160-169 | the slot in use with exactly index used slots before it, or none |
| FileStore.WriteDone | kernel/vfs.c:94-106 | giving a slot a new, filled block keeps ownership exclusive and changes the contents of that slot only |
| FileStore.DataDropped | kernel/vfs.c:128-132 | taking the data of a slot away keeps ownership exclusive and the contents of all other slots |
| FileMap.ViewChanged | kernel/vfs.c:66-75 | with distinct names, changing one slot changes the map from names to contents at that name only |
| FileMap.DuplicateCheckExact | kernel/vfs.c:58-79 | creating a file keeps names distinct in every table if and only if the name has at most 31 characters |
| FileScript.DoCreate | kernel/vfs.c:58-79 | create answers as the map does: fails exactly for a known name or 64 files, and adds an empty entry otherwise |
| FileScript.DoWrite | kernel/vfs.c:90-109 | write answers as the map does; it may fail for lack of memory, but never for data no longer than the present data |
| FileScript.DoRead | kernel/vfs.c:111-122 | read answers from the map |
| FileScript.DoDelete | kernel/vfs.c:124-137 | delete answers as the map does and removes one entry |
| FileScript.Run | kernel/vfs.c:58-137 | every script of create, write, read and delete requests is answered as by a map from names to contents, and the heap blocks of other clients are the same afterwards |
| FileScript.ReadReturnsLastWrite | kernel/vfs.c:90-122 | in every such script a read returns the last successful write to that file, cut to the requested size, also after writes of more than 4096 bytes, which are refused |
| FileScript.NothingAfterFailedWrite | kernel/vfs.c:90-122 | after a write that failed for lack of memory, reads of that file fail until it is written again |
| FileScript.ShorterFits | kernel/vfs.c:94-99 | rewriting a file with no more data than it has always finds room, whatever the fragmentation |
| FileScript.OnlyFileData | kernel/vfs.c:90-137 | with the store as the only client, the live pointers are exactly the data of the files in use |
| FileScript.FilesDisjoint | kernel/vfs.c:98-106 | the data of two files, with their NULs, never overlap |
| FileScript.NoFilesNoBlocks | kernel/vfs.c:124-137 | once every file is deleted, the heap is again the single free block of heap_init |
| Boot.VfsInit | kernel/vfs.c:33-56 | after start-up the store holds exactly the two default files with their full texts, and the two blocks of their data, at known addresses, are the only live ones |
| Boot.SplitAfterDelete | kernel/heap.c:41-53 | once README.txt is deleted, requests for 61 and 40 bytes are both served from its 120 bytes, at 0x10000C and 0x100058 |
| Boot.UsedAtBoot | kernel/heap.c:116-131 | after start-up 184 bytes are in use |
| Boot.RingAtBoot | kernel/drivers/e1000.c:103 | the receive ring allocated right after start-up lies at 0x1000C4, 4 off a 16-byte boundary, so the device works on other descriptors and reaches no status byte that the driver tests |
| GrowingHeap.GrowingHeap.constructor | kernel/disabled/memory/heap.c:29-56 | the initial megabyte is one free block; with frame 0 in use, every byte of it has physical memory of its own if and only if the free frames cover its pages and the tables they lack |
| GrowingHeap.GrowingHeap.ExpandHeap | kernel/disabled/memory/heap.c:69-94 | a new used block starts at the old end, the new end is the next page boundary, and fewer than 4096 bytes become waste; a backed heap stays backed if and only if the free frames cover the new pages and the tables they lack |
| GrowingHeap.MapHeap | kernel/disabled/memory/heap.c:78-82 | the mapping loop keeps every byte of the heap, old and new, in a physical byte of its own, outside frame 0 and the page tables, if and only if the frames last |
| GrowingHeap.BackedStore | kernel/disabled/memory/heap.c:78-82 | a heap with that property is memory: a store through the table walk at a heap address changes the byte seen there and no other byte of the heap |
| GrowingHeap.ExpansionExact | kernel/disabled/memory/heap.c:74-75 | with 32-bit wrap, the new block lies below the new end if and only if the expansion stays below the last page of the address space |
| GrowingHeap.GrowingHeap.Kmalloc | kernel/disabled/memory/heap.c:96-131 | as long as the heap is backed by frames and the address space is not exceeded: succeeds for every positive size; the block is new, of the requested size plus at most 12, live payloads stay, blocks stay ordered and inside the heap, and total waste stays below 4096 bytes per expansion; the heap stays backed if and only if no expansion was needed or the free frames cover it |
| GrowingHeap.GrowingHeap.Kfree | kernel/disabled/memory/heap.c:161-186 | removes exactly one live block, leaves no free neighbours, and changes neither the waste, nor any live payload, nor the frames behind the heap |
| GrowingHeap.MergeAcrossGap | kernel/disabled/memory/heap.c:170-174 | a merge across a gap ends short of the old end by the size of the gap, so blocks stay ordered and in bounds |
| Pmm.BitChanged | kernel/disabled/memory/pmm.c:11-23 | setting or clearing a bit of a word changes the test of that bit only; the bits are counted from the lowest |
| Pmm.Pmm.constructor | kernel/disabled/memory/pmm.c:35-57 | whole bitmap words are filled with ones; if they cover all frames, all frames are used and the counter is right |
| Pmm.InitCoversExactly | kernel/disabled/memory/pmm.c:46-57 | whatever memory held before, pmm_init marks all frames used if and only if the last partial word has no frames or at least 25 |
| Pmm.Pmm.BitmapSet | kernel/disabled/memory/pmm.c:11-13 | adds one frame to the used set |
| Pmm.Pmm.BitmapClear | kernel/disabled/memory/pmm.c:16-18 | removes one frame from the used set |
| Pmm.Pmm.BitmapTest | kernel/disabled/memory/pmm.c:21-23 | membership in the used set |
| Pmm.Pmm.FindFirstFree | kernel/disabled/memory/pmm.c:26-33 | the lowest free frame; -1 exactly when all are used |
| Pmm.Pmm.InitRegion | kernel/disabled/memory/pmm.c:124-132 | removes the region from the used set; the counter stays right if and only if the whole region was used |
| Pmm.Pmm.DeinitRegion | kernel/disabled/memory/pmm.c:135-143 | adds the frames of the region; the counter stays right if and only if all of them exist and were free |
| Pmm.Pmm.AllocBlock | kernel/disabled/memory/pmm.c:146-161 | hands out the lowest free frame, never one in use; returns 0 exactly when the counter or the bitmap says full or when frame 0 is free and is handed out; with a right counter the two agree |
| Pmm.Pmm.FreeBlock | kernel/disabled/memory/pmm.c:164-168 | removes one frame; the counter stays right if and only if the frame was used |
| Pmm.Pmm.GetFreeBlocks | kernel/disabled/memory/pmm.c:181-183 | the number of free frames if and only if the counter is right; then it is the number of allocations that will succeed in a row if and only if frame 0 is in use or there are no frames |
| Pmm.Pmm.AllocUntilNull | kernel/disabled/memory/pmm.c:146-161 | a run of allocations up to the first NULL yields as many frames as were free if and only if frame 0 was in use or there are no frames, and then leaves all in use |
| Pmm.FrameZeroLooksFailed | kernel/disabled/memory/pmm.c:146-161 | with frame 0 as the only free one of 32, one frame is reported free, and the allocation that takes it returns NULL |
| Pmm.SuccessesExact | kernel/disabled/memory/pmm.c:146-161 | starting from any used set, the number of allocations in a row that do not return NULL is the number of free frames if frame 0 is in use, and 0 otherwise |
| PageTables.EntryWritten | kernel/disabled/memory/paging.c:43-51 | writing one page table entry changes the table walk for the addresses that use it, and of no other: those of its page, or, where the table could not be made, those of the same page of every such table |
| PageTables.MadeWalks | kernel/disabled/memory/paging.c:25-34 | making a table removes the translations that went through the frame it gets, if that is frame 0 on failure, and those of the table itself, and changes no other |
| PageTables.MappedEntryFields | kernel/disabled/memory/paging.c:46-49 | the new entry has the present, rw and user bits of the flags, the frame of the target, and the other bits of the old entry |
| PageTables.WalkBits | kernel/disabled/memory/paging.c:18-23 | the indices into the directory and the table and the offset are the upper ten, the next ten and the last twelve bits of the address |
| PageTables.MarkedBits | kernel/disabled/memory/paging.c:34 | a directory entry is present and writable and keeps the address of the table |
| PageTables.MappedWalks | kernel/disabled/memory/paging.c:18-51 | in every state that a run reaches, what every address translates to after one page is mapped, whether the table was there, was made, or could not be made |
| PageTables.MapsExactly | kernel/disabled/memory/paging.c:43-51 | mapping a page changes the translation of that page, as asked, and of no other, if and only if its table exists; or can be made and nothing else of it is translated; or cannot be made, the page is not the first of its table or not to be present, and every other page of the tables that could not be made is translated as the new entry in frame 0 says |
| PageTables.WholeMapsCleanly | kernel/disabled/memory/paging.c:43-51 | as long as no table allocation failed, that condition is: the table exists or can be made, or the page is not the first of its table, or the flags lack the present bit |
| PageTables.BackedIsOwned | kernel/disabled/memory/heap.c:78-82 | pages mapped through tables of their own to frames that are all different give every byte a physical byte of its own |
| PageTables.StoreSeen | kernel/disabled/memory/heap.c:78-82 | in such a range a store through the table walk changes the byte that it names, and nothing else that is seen in the range |
| Paging.Paging.constructor | kernel/disabled/memory/paging.c:76-80 | the cleared directory translates nothing |
| Paging.Paging.MakeTable | kernel/disabled/memory/paging.c:24-38 | exactly the translations that used the frame of the new table are lost: none as long as no allocation failed before, and all those through frame 0 on a later failure; the directory stays consistent if and only if a frame other than 0 is handed out |
| Paging.Paging.GetPage | kernel/disabled/memory/paging.c:18-41 | the address of the entry that the table walk selects; NULL exactly when there is no table and none is to be made, or when the table could not be made and the page is its first; translations change exactly as for MakeTable, if a table is made |
| Paging.Paging.MapPage | kernel/disabled/memory/paging.c:43-51 | in every state that a run reaches, the translation of every address afterwards; it is the one asked for, with every other page as before, if and only if the condition of MapsExactly holds; the entry gets the fields of MappedEntryFields; the directory stays consistent if and only if a table was available |
| Paging.Paging.UnmapPage | kernel/disabled/memory/paging.c:53-58 | this page translates to nothing and every other page as before, if and only if its table exists or the page was not translated; where the table could not be made nothing changes; the entry keeps its other bits |
| Paging.SecondPageTakesOver | kernel/disabled/memory/paging.c:24-51 | without free frames, mapping a second page through the same table removes the first |
| Paging.NotUnmapped | kernel/disabled/memory/paging.c:53-58 | without free frames, a page that was mapped stays mapped when it is unmapped |
| Paging.Paging.MapRange | kernel/disabled/memory/heap.c:37-40 | in every state that a run reaches: after the mapping loop every byte of the range has a table and a physical byte to itself, in frames not used before that hold no table, if and only if the free frames cover the pages and the tables they lack; then other translations stay, but for those of tables that are newly made, which start empty; else some page has no table or shares frame 0 |
| Paging.Paging.IdentityMap | kernel/disabled/memory/paging.c:85-89 | the first 8 MB translate to themselves and nothing else translates if and only if frame 0 is in use and two frames are free; then exactly two are spent; with no free frame only the last page is left, as the last page of both tables |
| PageTables.InitSelfMaps | kernel/disabled/memory/paging.c:25-28 | after paging_init the code reaches every table at the address it stored if and only if all of them lie in the first 8 MB |
| PageTables.RangeSelfMaps | kernel/disabled/memory/heap.c:37-40 | after a range is mapped, the code reaches every table if and only if none lies in the range and each was mapped to itself before, through a table that was there |
| RxRing.Ring.constructor | kernel/drivers/e1000.c:113-133 | the ring starts empty, with all but one descriptor given to the device; the invariant holds from then on if and only if the descriptors are on a 16-byte boundary and rx_cur, which is not reset, is 0 |
| RxRing.OneRingExact | kernel/drivers/e1000.c:103-128 | the device, which ignores the low four bits of the base address, has each descriptor at the address where the driver has it if and only if the array is on a 16-byte boundary; otherwise no descriptor of the one is at the address of one of the other |
| RxRing.ReportsExact | kernel/drivers/e1000.c:103-188 | what the device writes back covers a status byte that the driver tests if and only if the base is less than 4 off a 16-byte boundary, and on a boundary the status of the same descriptor only |
| RxRing.NothingSeen | kernel/drivers/e1000.c:103-190 | for a base that is 4 or 8 off a 16-byte boundary, no sequence of write-backs changes a status byte that the driver tests, so receive never reports a packet |
| RxRing.AfterRestart | kernel/drivers/e1000.c:113-190 | set up again with rx_cur at c, the driver sees a packet exactly when more than c have arrived, and its length and buffer are then those of the packet with c before it |
| RxRing.Ring.DeviceStep | kernel/drivers/e1000.c:127-133 | under the invariant the device never changes the descriptor or buffer of an unread packet, and drops a legal frame only while busy or when all 31 descriptors are in use |
| RxRing.Ring.Receive | kernel/drivers/e1000.c:185-209 | on a ring that was set up on a 16-byte boundary with rx_cur at 0: whatever the device does between the driver's steps, the calls return the packets once each, in arrival order, cut to max_length; a waiting packet is always returned |
| RxRing.Ring.TailBehind | kernel/drivers/e1000.c:200-206 | between calls rx_cur is always one slot after the tail register |
| RxRing.Ring.HandBack | kernel/drivers/e1000.c:200-206 | the tail register ends one slot behind rx_cur, and no unread packet is touched by the device at any of the steps |
| Checksum.NetChecksum | kernel/net.c:49-67 | for every length the complement of the folded 32-bit sum; up to 131074 bytes, the checksum of RFC 1071 |
| Checksum.ReferenceExact | kernel/net.c:49-67 | the result is the checksum of RFC 1071 for every content of n bytes if and only if n is at most 131074 |
| Checksum.FoldAndComplement | kernel/net.c:62-66 | the folding loop ends and keeps the sum modulo 65535 |
| Checksum.FoldedSum | kernel/net.c:53-64 | summing in 32 bits and folding once equals adding with end-around carry |
| Checksum.SumOfBytes | kernel/net.c:53-60 | the sum is that of the bytes, those at odd places counted 256 times, an odd last byte once |
| Checksum.OverflowExact | kernel/net.c:50-60 | the 32-bit sum is exact for every content if and only if there are at most 131074 bytes |
| Checksum.OrderIrrelevant | kernel/net.c:53-56 | reordering the words keeps the checksum |
| Checksum.SwapSum | kernel/net.c:53-66 | swapping the bytes of every word swaps the bytes of the checksum of the words |
| Checksum.SwapDataWords | kernel/net.c:53-56 | swapping every pair of bytes of a block swaps the bytes of every word that the sum reads |
| Checksum.ByteOrderIndependent | kernel/net.c:53-66 | swapping every pair of bytes of a block swaps the bytes of its checksum |
| Checksum.StoredChecksumVerifies | kernel/net.c:133-142 | a block with its own checksum stored in a zeroed word field has checksum 0 |
| Checksum.Seal | kernel/net.c:133-134 | zeroing the field, computing and storing leaves a header that verifies, and changes only the field |
| DottedQuad.IpFromString | kernel/net.c:150-167 | the result of the parsing automaton, for every text with at most three dots |
| DottedQuad.IpToString | kernel/net.c:169-191 | within 16 bytes, four numbers without leading zeros with the values of the bytes from the top, a dot between any two, and a NUL |
| DottedQuad.PrintExact | kernel/net.c:169-191 | the printed text is the only one of that form |
| DottedQuad.PrintedAddress | kernel/net.c:169-191 | 0x0A00020F prints as 10.0.2.15 |
| DottedQuad.ParsePrint | kernel/net.c:150-191 | parsing the printed form gives every 32-bit address back |
| DottedQuad.PrintParse | kernel/net.c:150-191 | printing the parse of a canonical dotted quad gives the text back |
| DottedQuad.ParseQuad | kernel/net.c:150-167 | the parse of a dotted quad is the number with these four bytes |
| DottedQuad.ParseFields | kernel/net.c:150-167 | a text of one to four fields of digits, of any length, parses to their values modulo 2^32, each shifted to its place and cut to 32 bits, or-ed together |
| DottedQuad.OrBits | kernel/net.c:159-164 | every bit of the or is set exactly if it is set in one of the arguments |
| DottedQuad.OthersSkipped | kernel/net.c:155-163 | characters other than digits and dots have no effect on the parse |
| KeyRing.Keyboard.BufferAdd | kernel/drivers/keyboard.c:63-69 | a character is dropped exactly when 255 are pending |
| KeyRing.Keyboard.Handle | kernel/drivers/keyboard.c:82-144 | one scancode adds the character that the layout gives under the shift state of the whole history, if any, and unless 255 are pending |
| KeyRing.Press | kernel/drivers/keyboard.c:86-129 | a key after a press or a release of shift appends the character of its row, written out, with or without shift; a release appends nothing |
| KeyRing.Layout | kernel/drivers/keyboard.c:22-58 | the characters of the four rows of keys, without and with shift |
| KeyRing.OtherKeys | kernel/drivers/keyboard.c:104-121 | Enter, backspace, tab, the arrows, space and the number pad give their codes with and without shift |
| KeyRing.SilentKeys | kernel/drivers/keyboard.c:98-130 | no other key and no release gives a character |
| KeyRing.LettersShifted | kernel/drivers/keyboard.c:22-58 | the letter keys type small letters, and with shift the corresponding capitals |
| KeyRing.AllTypable | kernel/drivers/keyboard.c:22-58 | every printable ASCII character is typed by some key |
| KeyRing.Keyboard.BufferGet | kernel/drivers/keyboard.c:72-79 | with interrupts before every step, delivers the oldest accepted character not delivered yet, each once and in order; 0 exactly when none was pending |
| Vga.Screen.constructor | kernel/drivers/vga.c:36-46 | the cleared screen shows the cleared terminal |
| Vga.Screen.Scroll | kernel/drivers/vga.c:52-66 | the overlapping move in place shifts every row up by one and loses the top row only |
| Vga.Screen.PutChar | kernel/drivers/vga.c:68-117 | after any character, with wrap, tab, backspace and newline, the cells are the last 25 rows of the unbounded terminal and the cursor is inside |
| Vga.Screen.Write | kernel/drivers/vga.c:119-123 | the same for whole strings |
| Vga.PlainText | kernel/drivers/vga.c:107-115 | from the start of a row of any terminal, plain text lies row by row, 80 characters to a row, in the current colour, with the cursor after the last one, and no other cell changes |
| Vga.Newline | kernel/drivers/vga.c:69-77 | keeps every cell and goes to column 0 of the next row, blank if it is new |
| Vga.CarriageReturn | kernel/drivers/vga.c:79-83 | keeps all rows and the row number, and goes to column 0 |
| Vga.Tab | kernel/drivers/vga.c:95-105 | keeps all rows and goes to the least multiple of 4 above the column, or does what a newline does from column 76 on |
| Vga.Backspace | kernel/drivers/vga.c:84-93 | blanks the cell before the cursor and goes there; does nothing in column 0 |
| Vga.TwoLines | kernel/drivers/vga.c:68-123 | plain text, a newline and plain text on a cleared terminal: the second text starts in column 0 of the row after the first, and every other cell is blank |
| Vga.ShowTwoLines | kernel/drivers/vga.c:36-123 | the same on the 2000 cells of the screen, for texts of any length, scrolled so that the last 25 rows are left |
| Vga.HistoryKept | kernel/drivers/vga.c:68-117 | no character changes a row above the cursor, so what scrolled away is what was shown |
| Vga.BackspaceUndoes | kernel/drivers/vga.c:84-93 | backspace takes back a character typed into a blank cell, unless that character filled its row |

## Left out

- kmalloc_a, kmalloc_p and kmalloc_ap of both heaps: the live one bumps a pointer over the range of the free list, and the disabled one moves past the block it got, so there is no disjointness to claim.
- The place of the heap relative to the kernel image, which starts at the same address: the heap range is taken to be the heap's own.
- heap_init called from kmalloc on first use (kernel/disabled/memory/heap.c:101-103): the constructor stands for it.
- GrowingHeap.GrowingHeap.Kmalloc: requires that an expansion does not pass the end of the 32-bit address space, which the code does not check; ExpansionExact shows that the limit is exact. What a heap that is no longer backed does is not modelled: the payload statements are about memory in which every virtual byte has a place of its own.
- GrowingHeap.GrowingHeap.ExpandHeap: the same limit on the address space.
- FileScript.DoCreate: names of at most 31 characters, as in Run.
- FileStore.Vfs.Read: the buffer is memory of the caller outside the heap; a buffer inside a block of its own in the heap would be a write as in LiveHeap.PayloadWrite.
- Paging.Paging.GetPage: page tables are read and written at their physical address; once paging is on this is right only while the tables are mapped to themselves; InitSelfMaps and RangeSelfMaps say when that is so, and what the code does otherwise is not modelled.
- FileStore.Vfs.Write: the source data is a value, so a caller passing a pointer into the file's own old data is not covered.
- FileStore.Vfs.Search: one loop for the equal loops of vfs_create, vfs_open and vfs_delete.
- vfs_list: prints only.
- FileScript.Run: the answers and the blocks of other clients are stated for names to create of at most 31 characters; DuplicateCheckExact shows that the limit is exact.
- Paging.Paging.MapPage: the counter of the frame allocator is taken to be right, as Pmm states when it is; the four bit-field writes of one entry are one step; user rights, the TLB, CR0 and CR3 are not modelled, and the page directory and the frame bitmap lie outside the modelled physical memory.
- pmm_init: the printing of sizes.
- RxRing.Ring.DeviceStep: the device stores a frame in two steps, buffer then descriptor; bus ordering below that, frames over several descriptors and failed buffer allocations in e1000_driver_init are not modelled.
- RxRing.Ring.Receive: requires a ring that was set up on a 16-byte boundary with rx_cur at 0; OneRingExact, NothingSeen and AfterRestart say what happens otherwise, up to the first packet that is seen. The guard for a driver that was never initialised.
- RxRing.NothingSeen: the write-backs of the device; where it stores frames, with buffer addresses read from descriptors that the driver did not write, is not modelled.
- e1000_driver_send: its timeout lets the driver go on without completion.
- Checksum.Seal: the other fields of the ping packet, which the code stores in host order.
- DottedQuad.IpFromString: texts with more than three dots, for which C leaves the shift undefined.
- KeyRing.Keyboard.Handle: the echo to the screen, and the polling path, which is a second producer.
- vga_set_cursor, vga_set_color, vga_write_color and the hardware cursor: they would only add easy members.
- Port input and output, descriptor tables, interrupt set-up, serial output, PCI and boot data scanning, the framebuffer and the command line of kernel/kernel.c: hardware effects and user interface.
- net_http_get: a simulated response.
