# Memory and scheduling of the kernel, verified

This project models four stateful parts of the kernel and proves what they promise over every run:

- the **kernel heap**: a first-fit allocator whose list of blocks lives in 20-byte headers inside the
  memory it manages (`BlockList`, `HeapImage`, `KernelHeap`, `HeapRuns`, `StaleHeaders`);
- the **physical frame allocator**: a packed bitmap and a counter (`FrameBits`, `FrameSpec`, `PhysicalMem`);
- the **page tables**: two levels, edited only through virtual addresses that a recursive directory
  entry makes work (`PageWalk`, `PageSpec`, `PageRights`, `PageWindow`, `BootPaging`, `PageRuns`,
  `VirtualMem`), and the places where heap and page tables meet (`HeapMemory`, `KernelMalloc`);
- the **scheduler** and the pointer-based **queue** it keeps its threads in (`LinkedQueue`, `Cycles`,
  `Threads`, `SchedulerSpec`, `SwitchLemmas`, `Scheduler.dfy` with module `Scheduling`, `SchedulerRuns`,
  `SchedulerCalls`, `SchedulerTraces`).

`dafny verify dfyconfig.toml` checks everything.

## How it is built

Each part has an imperative layer and a specification layer. The imperative layer is classes whose
methods do what the C++ does, write by write: header words of an `array<Word>`, words of the bitmap, page
entries reached by a hardware walk of the tables being edited, `next` and `prev` fields of list nodes.
Every method is proved equal to a function or relation on values (`MallocStep`, `FreeStep`, `Allocated`,
`Mapped`, `Interrupt`, ...). The theorems are about those, and over runs: sequences of calls of any length
and order.

A `Word` is an integer from 0 to 2^32 - 1, so every assignment to one is a proof that nothing wraps; where
the source does wrap (`align_up`, the `usedBlocks` counter, the stack top) the `% 2^32` is written out.

**Heap.** `ram` holds the words of `[startAddress, endAddress)` as the kernel sees them, at virtual
addresses. `HeapMemory.StoreIsUpdate` is why this is sound: in the state after line 52 of
`VirtualMem::Init`, and after every store to the heap, a store at a heap address updates that one word of the
array, and no other, and changes no translation. The ghost field `blocks` is
the list the words encode; `HeapImage.FollowDecodes` shows that the words alone determine it. The
invariant says that a payload ends *at or before* the next header, because `malloc` shrinks a block it does
not split and the bytes cut off are never recovered; `HeapRuns.RunGaps` accounts for them exactly. `free` is
written as three steps (test, merge back, merge forward), and the two `for(;;)` halts are the results `None`
and `false`.

**Bitmap.** `MarkFree`, `MarkUsed` and `FreeBlocks` change the counter whether or not a bit changes. The
`...Accounts` lemmas say exactly when the counter is still right afterwards.

**Page tables.** An entry is a record of the bit fields; `PageWalk.EncodeInjective` and `WordsAreEntries` show
that records and 32-bit words are the same thing. `Machine.Load` and `Store` translate the address they are
given with the tables as they are at that moment, so a store through the window can change where the next
one goes. The walk follows 32-bit paging as in section 4.3 of the Intel SDM, volume 3A, with 4 MB pages. The
zeroing loop of a new table stores 1024 words where the source stores 4096 bytes. `GetPageForAddress` does
not test the result of its allocation: `MapSound` gives the exact condition under which mapping keeps the
tables sound, and `FailedTwiceAliases` shows two calls, from any sound state without frames, that break them. The
methods ask only for what `Editable` says, so that they can be followed into such states too. `SlotLinked` and
`PageWritten` say what the edits leave in memory, bit by bit; `AccessPage` is what the hardware then grants, a
right being there when the entries of both levels give it (section 4.6 of the same manual, user accesses). The
kernel writes a directory entry only when it makes a table, so `MapGrants` and `RunGrants` have to say exactly
when a mapping gets the rights it asks for.

**Scheduler.** `int $0x20` is a call of `HandleInterrupt`, and the stack pointer the processor pushes is
its argument. A call ends in one of three ways: `Quiet`, `Resume(esp)`, or `EnterUser(thread)` for
`InitialThreadUserJump`, which does not return. The fields `esp0` and `cr3` stand for the task segment's
kernel stack and the page directory register. Runs interleave timer interrupts, forced switches,
`Unblock`, `AddThread` and kernel code that blocks or stops a thread by writing its state. Three facts are
assumed of callers, as in the source: a thread is added once; at a switch some listed thread is Ready or
Started (`SchedulerSpec.CycleAwake` and `CycleRunnable` say exactly when the scan and the reaping loop
end); and an interrupt above the heap start has a current thread. `Started` threads have a process. One
call chain is cut so that the methods are not mutually recursive: the countdown wakes a thread with
`Wake`, the assignment that `Unblock` makes, rather than with `Unblock` itself. `AddThread` with a forced
jump into a user thread drops the frame of the thread that was running: `SchedulerRuns.ReplacedFrame` says
exactly when a frame is kept. The same jump is what a waiting thread has to fear:
`SchedulerRuns.NoStarvation` holds in every window without one, and `JumpsStarve` is a family of runs with
jumps in which a runnable thread is never picked. `scheduler.h` initialises `enabled` to true but the
constructor sets it to false; the model follows the constructor.

**Queue.** The methods are those of the template, with the node removed from the list where the source also
deletes it. `Remove(e)` deletes at index `i` and then moves on, so it skips the element that slid into place:
`LinkedQueue.RemoveAllIff` shows that it gets rid of every `e` exactly when no two are neighbours.

## Model

| member | source | states |
|---|---|---|
| `BlockList.FirstFit` | src/arch/x86/mem/heap.cpp:33-47 | the index is that of a free block large enough, and every block before it is used or too small |
| `BlockList.TakeKeepsOrdered` | src/arch/x86/mem/heap.cpp:61-78 | taking a block keeps addresses increasing, sizes multiples of 4 and payloads short of the next header |
| `BlockList.TakeKeepsCoalesced` | src/arch/x86/mem/heap.cpp:61-78 | taking a block never puts two free blocks next to each other |
| `BlockList.ReleaseKeepsOrdered` | src/arch/x86/mem/heap.cpp:93-114 | both merges keep the list ordered inside the heap |
| `BlockList.ReleaseKeepsCoalesced` | src/arch/x86/mem/heap.cpp:95-114 | after a release no two free blocks are adjacent |
| `BlockList.TakeKeepsAmple` | src/arch/x86/mem/heap.cpp:61-68 | the last header keeps at least 4 bytes behind it when a block is taken |
| `BlockList.ReleaseKeepsAmple` | src/arch/x86/mem/heap.cpp:95-114 | ... and when one is released |
| `BlockList.TakeLive` | src/arch/x86/mem/heap.cpp:77-80 | the live blocks gain exactly the one handed out, with the size asked for |
| `BlockList.ReleaseLive` | src/arch/x86/mem/heap.cpp:93-114 | the live blocks lose exactly the one released |
| `BlockList.LiveDisjoint` | src/arch/x86/mem/heap.cpp:61-80 | two live blocks never overlap and lie inside the heap |
| `BlockList.GapsAccount` | src/arch/x86/mem/heap.cpp:29 | sizes plus 20 per header plus lost bytes make up the heap |
| `BlockList.TakeTotal` | src/arch/x86/mem/heap.cpp:61-78 | a splitting allocation keeps the sum of size + 20; an unsplit one lowers it by the bytes cut off, at most 20 |
| `BlockList.ReleaseTotal` | src/arch/x86/mem/heap.cpp:98-108 | a release keeps the sum of size + 20 |
| `BlockList.ReleaseUndoesTake` | src/arch/x86/mem/heap.cpp:61-114 | releasing a block just taken restores the list, up to the slack of an unsplit block |
| `BlockList.NothingLiveOneBlock` | src/arch/x86/mem/heap.cpp:95-114 | a coalesced list with nothing live is one free block |
| `BlockList.FreeingAllRestores` | src/arch/x86/mem/heap.cpp:83-115 | freeing all live blocks, in any order, leaves one free block as large as the whole less the lost bytes |
| `HeapImage.JoinDecodes` | src/arch/x86/mem/heap.cpp:97-113 | the pointer writes of a merge turn the words of one list into those of the merged list |
| `HeapImage.SplitDecodes` | src/arch/x86/mem/heap.cpp:63-78 | the pointer writes of a split turn the words of one list into those of the split list |
| `HeapImage.TakenDecodes` | src/arch/x86/mem/heap.cpp:61-78 | the words after an allocation decode to the list after it, split or not |
| `HeapImage.TakenFrame` | src/arch/x86/mem/heap.cpp:61-78 | an allocation writes only words of headers of the new list |
| `HeapImage.FollowDecodes` | src/arch/x86/mem/heap.h:24-32 | following `next` through the raw words from the first header visits exactly the blocks |
| `KernelHeap.AlignUpCovers` | src/arch/x86/mem/heap.h:16-19 | rounding up reaches the request if and only if it is at most 0xFFFFFFFC; above that it gives 0 |
| `KernelHeap.TakenIsMalloc` | src/arch/x86/mem/heap.cpp:49-81 | the writes of an allocation are a malloc step and keep the heap invariant |
| `KernelHeap.StagesAreFree` | src/arch/x86/mem/heap.cpp:83-115 | clearing the mark, merging back and merging forward compose to one free step |
| `KernelHeap.KernelHeap.Initialize` | src/arch/x86/mem/heap.cpp:12-31 | refuses unaligned bounds; otherwise the heap is one valid free block of end - start - 20 bytes |
| `KernelHeap.KernelHeap.FirstFree` | src/arch/x86/mem/heap.cpp:33-47 | the walk over headers finds the address of the first fitting block, or 0 |
| `KernelHeap.KernelHeap.Split` | src/arch/x86/mem/heap.cpp:63-74 | the exact words after the split branch |
| `KernelHeap.KernelHeap.Carve` | src/arch/x86/mem/heap.cpp:61-78 | the exact words after handing a block out |
| `KernelHeap.KernelHeap.InternalAllocate` | src/arch/x86/mem/heap.cpp:49-81 | the words and blocks change by a malloc step and stay valid, or nothing changes and the call halts |
| `KernelHeap.KernelHeap.MergeBack` | src/arch/x86/mem/heap.cpp:95-104 | merges into a free predecessor and only then, and returns the header that now holds the block |
| `KernelHeap.KernelHeap.MergeForward` | src/arch/x86/mem/heap.cpp:106-114 | merges a free successor and only then |
| `KernelHeap.KernelHeap.Intact` | src/arch/x86/mem/heap.cpp:85-91 | the double-free test reads magic and mark of the header below the pointer |
| `KernelHeap.KernelHeap.Free` | src/arch/x86/mem/heap.cpp:83-115 | a header that does not look live is refused and nothing changes; otherwise the block is released, both neighbours merged, no word outside headers written |
| `HeapRuns.RunKeepsInv` | src/arch/x86/mem/heap.cpp:12-115 | every state of every run decodes to an ordered, coalesced list whose last block has room behind its header |
| `HeapRuns.RunDecodes` | src/arch/x86/mem/heap.cpp:49-115 | in every state of a run, following `next` through the raw words gives the blocks in increasing order, and the five words of every header are 1234567890, the address of the next block or 0, that of the previous one or 0, 1 or 0 for its mark, and its size |
| `HeapRuns.MallocGives` | src/arch/x86/mem/heap.cpp:51-80 | a returned payload is 4-aligned, starts and ends inside the heap (an empty one too), is away from all live ones, and is at least as large as asked if and only if the request is at most 0xFFFFFFFC |
| `HeapRuns.MallocHalts` | src/arch/x86/mem/heap.cpp:53-59 | malloc halts if and only if no free block holds the rounded request |
| `HeapRuns.MallocFirstFit` | src/arch/x86/mem/heap.cpp:33-47 | every free block below the one taken is too small |
| `HeapRuns.RunLive` | src/arch/x86/mem/heap.cpp:77-93 | in every run the blocks in use are exactly those returned and not yet freed |
| `HeapRuns.RunDisjoint` | src/arch/x86/mem/heap.cpp:61-80 | ... and never overlap |
| `HeapRuns.RunKeepsPayload` | src/arch/x86/mem/heap.cpp:61-114 | no malloc or free in a run changes a word of a live payload |
| `HeapRuns.RunGaps` | src/arch/x86/mem/heap.cpp:61-78 | the bytes no block covers are exactly those unsplit mallocs cut off, at most 20 for each |
| `HeapRuns.RunDrains` | src/arch/x86/mem/heap.cpp:83-115 | once all is freed the heap is a single block of end - start - 20 bytes less the bytes lost |
| `HeapRuns.MallocFreeUndo` | src/arch/x86/mem/heap.cpp:61-114 | malloc then free restores the block list, except for the slack of a block not split |
| `HeapRuns.RunKeepsStale` | src/arch/x86/mem/heap.cpp:61-114 | the header of a freed block stays readable with mark 0 through any run whose new blocks spare it |
| `HeapRuns.MallocKeepsStale` | src/arch/x86/mem/heap.cpp:61-78 | a malloc leaves a freed header with mark 0 and clear of every block in use and every other header if and only if the block it hands out and the remainder of its split lie clear of it |
| `StaleHeaders.MallocRevives` | src/arch/x86/mem/heap.cpp:61-91 | after a malloc a pointer freed before passes the double-free test if and only if the block handed out is its own again, or the remainder of the split puts a header 4, 8 or 12 bytes behind the old one, whose magic is still there (8 bytes only when another block follows) |
| `StaleHeaders.FiveCallsRevive` | src/arch/x86/mem/heap.cpp:49-115 | malloc(4), malloc(100), freeing both and malloc(16) on a fresh heap make the second pointer pass that test though it is not allocated |
| `HeapRuns.DoubleFreeRefused` | src/arch/x86/mem/heap.cpp:85-91 | a second free is refused after any run of calls and client writes in which no new block lies over the old header, merged away or not |
| `HeapRuns.FreedTwiceRefused` | src/arch/x86/mem/heap.cpp:85-91 | in particular after any number of frees and client writes with no malloc between |
| `KernelMalloc.Malloc` | src/arch/x86/mem/heap.cpp:117-126 | for every request, allocates as `InternalAllocate`, leaves the page tables alone, and reports the address the hardware walk gives the result |
| `KernelMalloc.PayloadInside` | src/arch/x86/mem/heap.cpp:80 | every payload, an empty one too, starts inside the heap |
| `KernelMalloc.BacksShows` | src/arch/x86/mem/virtmem.cpp:51-52 | after the heap-window loop every heap address is mapped through a table the window shows, which is all that the physical address needs |
| `HeapMemory.WindowBacks` | src/arch/x86/kernel/kernel.cpp:75 | the window the loop leaves holds the kernel heap with the bounds the kernel gives it |
| `HeapMemory.DataWalk` | src/arch/x86/mem/virtmem.cpp:6-33 | writing a frame that holds no table changes no translation |
| `HeapMemory.HeapStore` | src/arch/x86/mem/heap.cpp:25-30 | a store at a heap address changes no translation, keeps the paging state sound, and changes the word read at no other heap address |
| `HeapMemory.StoreIsUpdate` | src/arch/x86/mem/heap.cpp:25-30 | so it is an update of one word of the flat array that the heap code works on |
| `FrameSpec.FirstClear` | src/arch/x86/mem/phymem.cpp:110-124 | the least clear bit, or the length when all are set |
| `FrameSpec.MarkFreeAccounts` | src/arch/x86/mem/phymem.cpp:25-36 | the counter stays right if and only if the range was all used frames of memory, excludes frame 0, and frame 0 was in use |
| `FrameSpec.MarkUsedAccounts` | src/arch/x86/mem/phymem.cpp:38-49 | the counter stays right if and only if the range was all free frames of memory, or all but one of them when reserving frame 0 uses one frame more |
| `FrameSpec.FreeBlocksAccounts` | src/arch/x86/mem/phymem.cpp:94-103 | the counter stays right if and only if the range was all used frames of memory |
| `FrameSpec.AllocateAccounts` | src/arch/x86/mem/phymem.cpp:126-142 | with a right counter, allocation succeeds if and only if a frame of memory is free, gives one below `maximumBlocks`, never scans past the bitmap, and keeps the counter right |
| `FrameSpec.AllocatesLowest` | src/arch/x86/mem/phymem.cpp:126-142 | with a right counter, a successful allocation returns the address of the lowest free frame, marks that frame alone and counts one more |
| `FrameSpec.RunKeepsUsed` | src/arch/x86/mem/phymem.cpp:15-49 | over a run a used frame stays used until a call releases it |
| `FrameSpec.HandedOutOnce` | src/arch/x86/mem/phymem.cpp:126-142 | over a run no frame is handed out twice without being released between |
| `FrameSpec.NullMeansFailure` | src/arch/x86/mem/phymem.cpp:35-49 | with frame 0 in use at the start, a null result means failure in every run in which `FreeBlocks` does not name frame 0 |
| `FrameSpec.NullOnSuccess` | src/arch/x86/mem/phymem.cpp:126-142 | an allocation that succeeds returns null if and only if frame 0 is memory and free, and the counter does not say full |
| `FrameSpec.FreedZero` | src/arch/x86/mem/phymem.cpp:94-103 | that is what the first allocation after a `FreeBlocks` of frame 0 does, unless the counter says full; it reserves frame 0 again |
| `PhysicalMem.SetOneBit` | src/arch/x86/mem/phymem.cpp:15-18 | the or with a shifted one sets that bit of the bitmap and no other |
| `PhysicalMem.ClearOneBit` | src/arch/x86/mem/phymem.cpp:20-23 | the and with its complement clears that bit and no other |
| `PhysicalMem.WordScanned` | src/arch/x86/mem/phymem.cpp:114-120 | the first clear bit of the first word not all ones is the first clear bit of the bitmap |
| `PhysicalMem.PhysicalMem.SetBit` | src/arch/x86/mem/phymem.cpp:15-18 | exactly one frame becomes used |
| `PhysicalMem.PhysicalMem.UnsetBit` | src/arch/x86/mem/phymem.cpp:20-23 | exactly one frame becomes free |
| `PhysicalMem.PhysicalMem.MarkFree` | src/arch/x86/mem/phymem.cpp:25-36 | the frames of the range become free, frame 0 used, the counter drops by the length of the range with wrap-around |
| `PhysicalMem.PhysicalMem.MarkUsed` | src/arch/x86/mem/phymem.cpp:38-49 | the frames of the range and frame 0 become used, the counter grows by the length of the range |
| `PhysicalMem.PhysicalMem.FreeBlocks` | src/arch/x86/mem/phymem.cpp:94-103 | the frames become free and the counter drops by their number |
| `PhysicalMem.PhysicalMem.FirstClearBit` | src/arch/x86/mem/phymem.cpp:114-120 | the inner loop finds the least clear bit of a word |
| `PhysicalMem.PhysicalMem.FirstFree` | src/arch/x86/mem/phymem.cpp:110-124 | the word-counted scan finds the least clear bit when it is within reach |
| `PhysicalMem.PhysicalMem.AllocateBlock` | src/arch/x86/mem/phymem.cpp:126-142 | the least clear frame becomes used and its address is returned, or null and no change |
| `PageWalk.EncodeInjective` | src/arch/x86/mem/virtmem.h:12-40 | two entries with the same 32-bit word have the same fields |
| `PageWalk.WordsAreEntries` | src/arch/x86/mem/virtmem.h:12-40 | every 32-bit word is the encoding of an entry |
| `PageWalk.EncodeBits` | src/arch/x86/mem/virtmem.h:12-40 | the word of an entry, field by field: bit 0 present, 1 writable, 2 user, 7 page size, the frame from bit 12 on |
| `PageWalk.AccessIsWalk` | src/arch/x86/mem/virtmem.h:12-40 | the walk with rights finds the same frame as the plain walk |
| `PageWalk.EntryAddressParts` | src/arch/x86/mem/virtmem.h:66-73 | an address in the window has directory index 1023, the table's number as table index and the entry's offset |
| `PageWalk.WindowReachesTables` | src/arch/x86/mem/virtmem.cpp:87-92 | with the self-map, the walk of `GetPageTableAddress(i) + 4j` reaches word j of table i for every present entry i, and 0xFFFFF000 + 4i reaches directory entry i |
| `PageWalk.WindowReach` | src/arch/x86/mem/virtmem.h:66-67 | a load or store at that address is one of exactly that entry of physical memory |
| `PageSpec.CreateKeepsTables` | src/arch/x86/mem/virtmem.cpp:13-29 | a new table keeps tables apart from each other and the directory if and only if its frame held none |
| `PageSpec.CreateKeepsWalk` | src/arch/x86/mem/virtmem.cpp:13-29 | making and zeroing a table changes no translation |
| `PageSpec.PutWalk` | src/arch/x86/mem/virtmem.cpp:110-113 | writing one table entry changes the translation of one page only |
| `PageSpec.NextFrameFresh` | src/arch/x86/mem/virtmem.cpp:15-17 | the frame a table gets is in memory, was unused, is not frame 0 and holds no table |
| `PageSpec.MapSound` | src/arch/x86/mem/virtmem.cpp:6-33 | mapping keeps the paging state sound if and only if a missing table can have a frame to itself |
| `PageSpec.MapRefinesUpdate` | src/arch/x86/mem/virtmem.cpp:106-113 | mapping is a map update of the hardware walk: the page gets the frame and all other pages translate as before |
| `PageSpec.FailedAllocationAliases` | src/arch/x86/mem/virtmem.cpp:13-21 | a failed allocation whose frame 0 is a table makes two slots share every translation |
| `PageSpec.FailedTwiceAliases` | src/arch/x86/mem/virtmem.cpp:13-29 | two calls reach that: from any sound state with no frame left, no table in frame 0 and two empty slots, the second call wipes out the first mapping |
| `PageRights.TableLinked` | src/arch/x86/mem/virtmem.cpp:13-21 | a slot with a table keeps its directory entry; an empty one is linked to the next frame as a 4 KB table with the rights asked for, its other bits kept |
| `PageRights.MapWritten` | src/arch/x86/mem/virtmem.cpp:106-113 | after a mapping, sound or not, the page's entry is present with the frame given, user unless kernel, writable as asked, its other bits those it had or 0 in a new table; nothing else in memory differs but the directory entry and the rest of a new table |
| `PageRights.GiveWritten` | src/arch/x86/mem/virtmem.cpp:94-104 | the same of `AllocatePage` when it gets a frame |
| `PageRights.WrittenAccess` | src/arch/x86/mem/virtmem.cpp:106-113 | over sound tables such an edit changes what the hardware grants on that page alone |
| `PageRights.MapAccess` | src/arch/x86/mem/virtmem.cpp:106-113 | mapping is an update of what the hardware grants: the page gets the frame and the rights asked for, less those its slot denies, and every other page keeps frame and rights |
| `PageRights.MapGrants` | src/arch/x86/mem/virtmem.cpp:13-20 | a mapping gets all it asks for if and only if its slot was empty or the slot's directory entry allows as much |
| `PageRights.GivenAccess` | src/arch/x86/mem/virtmem.cpp:94-104 | the same update for `AllocatePage` |
| `PageWindow.RoundStep` | src/arch/x86/mem/virtmem.cpp:51-52 | one round of the heap-window loop keeps all that earlier rounds achieved and adds one page |
| `BootPaging.BootPageWord` | boot/boot.asm:20-22 | the boot entry 0x83 is a present writable 4 MB page at 0 |
| `BootPaging.BootIsSound` | boot/boot.asm:20-23 | the boot directory with its last slot set is sound, lacks exactly four tables, and the loop fits if and only if 4096 + 4 frames are free |
| `BootPaging.HeapMappedPages` | src/arch/x86/mem/virtmem.cpp:51-52 | after the loop the pages have distinct frames, none of them 0, a table or the directory |
| `BootPaging.HeapIsPrivate` | src/arch/x86/mem/virtmem.cpp:51-52 | two heap addresses never share a physical word and never reach a page table |
| `BootPaging.LoopRights` | src/arch/x86/mem/virtmem.cpp:51-52 | with enough frames the slots the loop opens are linked writable and not user, and in their tables exactly the pages mapped so far have entries: present, writable, not user, all other bits 0 |
| `BootPaging.WindowRights` | src/arch/x86/mem/virtmem.cpp:51-52 | every heap-window page is writable and out of reach of user code, and its words on both levels are the frame's address plus 3 |
| `BootPaging.SelfWord` | src/arch/x86/mem/virtmem.cpp:45-48 | the word of entry 1023 is the directory's address plus 3 |
| `VirtualMem.OrIsSum` | src/arch/x86/mem/virtmem.cpp:89-90 | the bitwise or of numbers that share no bit is their sum |
| `VirtualMem.GetPageTableAddress` | src/arch/x86/mem/virtmem.cpp:87-92 | the or of the base and the shifted number is the address of that table in the window |
| `VirtualMem.VirtualMem.LinkTable` | src/arch/x86/mem/virtmem.cpp:17-21 | five field stores through the window amount to one directory entry: present, no 4 MB page, the frame and the two rights given, the other bits as before |
| `VirtualMem.VirtualMem.ClearTable` | src/arch/x86/mem/virtmem.cpp:23-26 | zeroing through the window clears exactly the new table's frame |
| `VirtualMem.VirtualMem.GetPageForAddress` | src/arch/x86/mem/virtmem.cpp:6-33 | for every address, returns the entry's window address and makes the table exactly when it is missing and wanted, with the two rights in their places; the self-map is all it needs otherwise |
| `VirtualMem.VirtualMem.CreateTable` | src/arch/x86/mem/virtmem.cpp:13-29 | an empty slot gets the next frame as a zeroed table, linked with the rights asked for |
| `VirtualMem.VirtualMem.AllocatePage` | src/arch/x86/mem/virtmem.cpp:94-104 | backs the entry with a fresh frame: present, user unless kernel, writable as asked; maps nothing when the allocator returns null |
| `VirtualMem.VirtualMem.MapVirtualToPhysical` | src/arch/x86/mem/virtmem.cpp:106-116 | the paging state becomes `Mapped`, sound or not, through stores at window addresses only; the page's entry is present with that frame, user unless kernel, writable as asked |
| `PageRuns.StepKeeps` | src/arch/x86/mem/virtmem.cpp:6-116 | each page-table call keeps the paging state sound and changes frame and rights of at most the page it is asked for; a write to ordinary memory changes none |
| `PageRuns.RunTranslates` | src/arch/x86/mem/virtmem.cpp:6-116 | over every run of such calls and writes the tables stay sound and each page has the frame and the rights the last call that concerned it gave it |
| `PageRuns.BackedApart` | src/arch/x86/mem/virtmem.cpp:94-104 | over every run, pages backed by different calls get different frames |
| `PageRuns.StepSlot` | src/arch/x86/mem/virtmem.cpp:13-21 | no call touches the directory entry of a slot that has a table; one that makes the table gives the entry the rights it was asked for |
| `PageRuns.RunGrants` | src/arch/x86/mem/virtmem.cpp:6-116 | over every run a page last mapped by a call is writable, or in reach of user code, if and only if that call and the one that opened its slot both asked for it |
| `VirtualMem.VirtualMem.InstallSelfMap` | src/arch/x86/mem/virtmem.cpp:39-49 | entry 1023 of the boot directory points at the directory |
| `VirtualMem.VirtualMem.MapWindow` | src/arch/x86/mem/virtmem.cpp:51-52 | the loop over any range without 4 MB pages, with enough frames or not, ends in the state `WindowLoop` |
| `VirtualMem.VirtualMem.BackPage` | src/arch/x86/mem/virtmem.cpp:52 | one round gives the page a table and a frame, each if there is one |
| `PageWindow.LoopFits` | src/arch/x86/mem/virtmem.cpp:51-52 | with enough frames the loop maps all of the range at a cost of one frame per page and per missing table |
| `PageWindow.LoopMapsIff` | src/arch/x86/mem/virtmem.cpp:51-52 | a range not mapped before ends with every page mapped if and only if there is a free frame for each page and each missing table |
| `BootPaging.BootWindow` | src/arch/x86/mem/virtmem.cpp:39-52 | from the boot directory every page of the heap window ends up mapped if and only if 4096 + 4 frames were free |
| `VirtualMem.VirtualMem.InitHeapWindow` | src/arch/x86/mem/virtmem.cpp:39-52 | the boot directory gets its self-map and the loop runs; with 4096 + 4 free frames the heap window is mapped to frames of its own, for the kernel alone, and exactly those frames are consumed |
| `VirtualMem.VirtualMem.PhysicalAddress` | src/arch/x86/mem/heap.cpp:120-124 | frame times page size plus offset is the hardware walk of a mapped address |
| `LinkedQueue.IndexIn` | libc/queue.h:165-171 | the first index of an element, or -1 when it is absent |
| `LinkedQueue.RemoveLoopSurvivors` | libc/queue.h:157-162 | what the removing loop leaves, read off the sequence |
| `LinkedQueue.RemoveAllIff` | libc/queue.h:157-162 | `Remove(e)` gets rid of every `e` if and only if no two are neighbours |
| `LinkedQueue.RemoveIsWithout` | libc/queue.h:157-162 | it then removes exactly those and keeps the order of the rest |
| `LinkedQueue.DistinctNotAdjacent` | libc/queue.h:157-162 | on contents without duplicates that is always so |
| `LinkedQueue.InsertLinked` | libc/queue.h:87-111 | the pointer writes of an insertion leave every node of the longer list linked to its neighbours |
| `LinkedQueue.RemoveLinked` | libc/queue.h:134-141 | the pointer writes of a removal leave every node of the shorter list linked to its neighbours |
| `LinkedQueue.Queue.InsertInternal` | libc/queue.h:85-113 | head, tail, size and all links stand for the list with the new node in place |
| `LinkedQueue.Queue.PushBack` | libc/queue.h:115-121 | the contents grow by one at the end |
| `LinkedQueue.Queue.PushFront` | libc/queue.h:123-127 | the contents grow by one at the front |
| `LinkedQueue.Queue.RemoveInternal` | libc/queue.h:130-145 | head, tail, size and all links stand for the list without the node; null removes nothing |
| `LinkedQueue.Queue.RemoveAt` | libc/queue.h:148-154 | the element at the index goes, the first one for a negative index, none for the index past the end |
| `LinkedQueue.Queue.RemoveValue` | libc/queue.h:157-162 | the loop as written, skipping what slides into place |
| `LinkedQueue.Queue.IndexOf` | libc/queue.h:165-171 | the first index or -1 |
| `LinkedQueue.Queue.GetAt` | libc/queue.h:190-196 | the element at the index, the first one for a negative index |
| `LinkedQueue.Queue.Clear` | libc/queue.h:174-187 | the queue is empty |
| `Cycles.RotatedWithout` | src/arch/x86/scheduler/scheduler.cpp:79-94 | deleting threads other than the current one and reading the list cyclically from it commute |
| `Cycles.RotateAgain` | src/arch/x86/scheduler/scheduler.cpp:81-91 | reading on from a thread found w places further is rotating the reading |
| `Cycles.WithoutOrder` | libc/queue.h:157-162 | deleting keeps the order of what is left |
| `SchedulerSpec.FirstRunnable` | src/arch/x86/scheduler/scheduler.cpp:36-45 | the first Ready or Started thread of a reading |
| `SchedulerSpec.FirstAwake` | src/arch/x86/scheduler/scheduler.cpp:86-91 | the first thread that is not Blocked |
| `SchedulerSpec.CycleAwake` | src/arch/x86/scheduler/scheduler.cpp:86-91 | the scan ends if and only if some listed thread is not Blocked |
| `SchedulerSpec.CycleRunnable` | src/arch/x86/scheduler/scheduler.cpp:36-45 | the reaping loop finds a thread to run if and only if some listed thread is runnable |
| `SwitchLemmas.NoneRunnable` | src/arch/x86/scheduler/scheduler.cpp:38-45 | with none, each turn finds a stopped thread and leaves a shorter list with none |
| `SwitchLemmas.NextIsFirst` | src/arch/x86/scheduler/scheduler.cpp:36-45 | the thread chosen is listed, runnable, and no runnable thread comes before it in cyclic order |
| `SwitchLemmas.DoomedAre` | src/arch/x86/scheduler/scheduler.cpp:38-45 | the threads reaped are exactly the stopped ones before the first runnable one |
| `SwitchLemmas.ReapStep` | src/arch/x86/scheduler/scheduler.cpp:38-45 | one turn of the reaping loop shortens the list, keeps the eventual choice and takes one thread off those to reap |
| `SwitchLemmas.ReapEnd` | src/arch/x86/scheduler/scheduler.cpp:38-45 | when the loop ends exactly the reaped threads are gone and the thread in hand is the choice |
| `SwitchLemmas.Spared` | src/arch/x86/scheduler/scheduler.cpp:38-52 | only stopped threads leave the list |
| `SwitchLemmas.SwitchPicks` | src/arch/x86/scheduler/scheduler.cpp:36-58 | the first runnable thread in cyclic order becomes current; exactly the stopped threads passed over and a stopped current one leave |
| `SwitchLemmas.SwitchOrders` | src/arch/x86/scheduler/scheduler.cpp:41-50 | the threads that stay keep their order |
| `Scheduling.Scheduler.constructor` | src/arch/x86/scheduler/scheduler.cpp:14-20 | an empty scheduler with no current thread, at tick 0, not enabled and with no switch forced |
| `Scheduling.Scheduler.SkipBlocked` | src/arch/x86/scheduler/scheduler.cpp:86-93 | the index loop with its wrap-around walks the cyclic reading and stops at the first thread awake |
| `Scheduling.Scheduler.GetNextReadyThread` | src/arch/x86/scheduler/scheduler.cpp:79-94 | returns the first thread awake after the current one |
| `Scheduling.Scheduler.Delete` | src/arch/x86/scheduler/scheduler.cpp:41-42 | exactly that thread leaves the list |
| `Scheduling.Scheduler.Reap` | src/arch/x86/scheduler/scheduler.cpp:36-45 | the loop ends with the choice in hand and the doomed threads gone |
| `Scheduling.Scheduler.Leave` | src/arch/x86/scheduler/scheduler.cpp:47-56 | a stopped current thread leaves the list; any other keeps `esp` as its frame when it is above the heap start |
| `Scheduling.Scheduler.Enter` | src/arch/x86/scheduler/scheduler.cpp:58-72 | current thread, first user start, resumed frame; the kernel stack ends 4096 bytes above the thread's stack (modulo 2^32), and the directory is the process's unless that is 0 and the thread is resumed |
| `Scheduling.Scheduler.InitialThreadUserJump` | src/arch/x86/scheduler/scheduler.cpp:109-124 | current thread, `enabled`, the top of the thread's 4096-byte stack and the process's directory set; the call does not return |
| `Scheduling.Scheduler.SwitchThreads` | src/arch/x86/scheduler/scheduler.cpp:36-72 | the whole state after the switching part equals `Switch` of the state before |
| `Scheduling.Scheduler.CountOne` | src/arch/x86/scheduler/scheduler.cpp:147-152 | a thread blocked in a sleep with ticks to go loses one and wakes at zero; any other thread is untouched |
| `Scheduling.Scheduler.ProcessSleepingThreads` | src/arch/x86/scheduler/scheduler.cpp:142-154 | every listed thread is counted down once, no other changes |
| `Scheduling.Scheduler.HandleInterrupt` | src/arch/x86/scheduler/scheduler.cpp:22-77 | state and outcome equal `Interrupt` of the state before, and the scheduler stays valid |
| `Scheduling.Scheduler.ForceSwitch` | src/arch/x86/scheduler/scheduler.cpp:126-132 | an interrupt taken at tick 29 with the scheduler enabled and the countdown skipped |
| `Scheduling.Scheduler.Unblock` | src/arch/x86/scheduler/scheduler.cpp:134-140 | the thread becomes Ready and nothing else changes, followed by a forced switch if asked |
| `Scheduling.Scheduler.AddThread` | src/arch/x86/scheduler/scheduler.cpp:96-107 | the thread joins at the end; a forced user thread is jumped into directly, any other forced one goes through an interrupt |
| `SchedulerRuns.RunKeeps` | src/arch/x86/scheduler/scheduler.cpp:22-140 | over every run no thread is listed twice, the current one is on the list, the tick stays below 30 and no forced switch is pending between calls |
| `SchedulerRuns.SwitchCloser` | src/arch/x86/scheduler/scheduler.cpp:79-94 | a switch that passes a runnable thread over brings it strictly closer |
| `SchedulerRuns.NoStarvation` | src/arch/x86/scheduler/scheduler.cpp:36-58 | a thread that stays runnable is picked within n + a switches of an n-thread list, where a threads are added meanwhile and none of them is jumped into |
| `SchedulerRuns.PickedWithin` | src/arch/x86/scheduler/scheduler.cpp:36-107 | in any window at all: each thread added costs a waiting one at most one switch, each direct jump at most a whole round |
| `SchedulerRuns.JumpsStarve` | src/arch/x86/scheduler/scheduler.cpp:100-106 | with a jump before every switch a runnable thread behind a runnable head is never picked, however many switches there are |
| `SchedulerRuns.ThirtySwitch` | src/arch/x86/scheduler/scheduler.cpp:24-36 | with scheduling enabled and threads listed at the start, interrupts, forced or not, never number thirty without a switch |
| `SchedulerRuns.NoStarvationInTime` | src/arch/x86/scheduler/scheduler.cpp:22-36 | ... and so within 30 (n + a) interrupts |
| `SchedulerRuns.SleepsExactly` | src/arch/x86/scheduler/scheduler.cpp:142-154 | a thread asleep for k ticks is Blocked through k - 1 timer interrupts and Ready from the k-th on; forced ones do not count |
| `SchedulerRuns.CountdownOnlySleepers` | src/arch/x86/scheduler/scheduler.cpp:147 | the countdown changes a thread if and only if it is listed, Blocked, in `SleepMS`, with ticks to go, and then takes one off and wakes it at zero |
| `SchedulerRuns.FramesKept` | src/arch/x86/scheduler/scheduler.cpp:47-56 | over every run a thread's saved frame is the one it was last interrupted with above the heap start, or its first |
| `SchedulerRuns.ResumesLastFrame` | src/arch/x86/scheduler/scheduler.cpp:58-76 | a switch without a user jump resumes exactly that frame |
| `SchedulerRuns.NoSwitchNoChange` | src/arch/x86/scheduler/scheduler.cpp:30-76 | an interrupt that does not switch returns `esp` unchanged |
| `SchedulerRuns.ReplacedFrame` | src/arch/x86/scheduler/scheduler.cpp:96-124 | a thread that loses the processor above the heap start has its frame recorded, except when a new user thread is jumped into directly |
| `SchedulerRuns.RunFollows` | src/arch/x86/scheduler/scheduler.cpp:67-72 | over every run the kernel stack is the top of the current thread's (its stack + 4096 modulo 2^32) and the page directory that of its process, if it has one other than 0 |
| `SchedulerCalls.StepIsCall` | src/arch/x86/scheduler/scheduler.cpp:22-140 | the steps of a run are what the methods are proved to do |
| `SchedulerCalls.SwitchTurns` | src/arch/x86/scheduler/scheduler.cpp:79-94 | with the list read round from behind the current thread, or from its second place when none is current, the thread chosen is the first that is Ready or Started, and those before it are Blocked or Stopped |
| `SchedulerCalls.SwitchLoads` | src/arch/x86/scheduler/scheduler.cpp:58-76 | the kernel stack is the chosen thread's stack + 4096 modulo 2^32; a Started user thread is jumped into, becomes Ready and gets its process's directory; any other is resumed, in its process's directory if there is one other than 0 and else in the one loaded before |
| `SchedulerCalls.AddDoes` | src/arch/x86/scheduler/scheduler.cpp:96-124 | every field after an `AddThread`: unforced, forced into a user thread, forced otherwise |
| `SchedulerCalls.UnblockWakes` | src/arch/x86/scheduler/scheduler.cpp:134-140 | after `Unblock` the thread is Ready, listed if it was, and unless a switch was forced nothing else has changed |
| `SchedulerCalls.UnblockedPicked` | src/arch/x86/scheduler/scheduler.cpp:134-140 | a listed thread that is unblocked and then left runnable is picked within the bound of `NoStarvation` from there |
| `SchedulerTraces.RunWaits` | src/arch/x86/scheduler/scheduler.cpp:142-154 | over every run a thread Blocked for a message, for no stated reason, or in a sleep whose count is 0 keeps state, reason, count and place on the list until a call names it |
| `SchedulerTraces.RunEnabled` | src/arch/x86/scheduler/scheduler.cpp:96-132 | scheduling is enabled after a run if and only if it was before or a call of the run forced a switch |
| `SchedulerTraces.RunIdle` | src/arch/x86/scheduler/scheduler.cpp:30-36 | until then no run switches or loads anything |
| `SchedulerTraces.StartIdle` | src/arch/x86/scheduler/scheduler.cpp:14-20 | in particular no run from the constructed scheduler switches before a call forces it |
| `SchedulerTraces.ExactTicks` | src/arch/x86/scheduler/scheduler.cpp:24-32 | with no forced switch, a run that starts at tick k and has n timer interrupts ends at tick (k + n) mod 30, enabled or not |
| `SchedulerTraces.ExactSlices` | src/arch/x86/scheduler/scheduler.cpp:24-34 | with scheduling enabled and threads listed it switches exactly (k + n) / 30 times |
| `SchedulerTraces.EntersOnce` | src/arch/x86/scheduler/scheduler.cpp:60-65 | over every run a known thread is jumped into at most once, and only if it was Started at the start, unless a call makes it Started again |
| `SchedulerTraces.RunDirectory` | src/arch/x86/scheduler/scheduler.cpp:60-70 | over every run the page directory is that of the last thread that got the processor and brought one |

## Left out

- Boot code, GDT and IDT tables, PIC, PIT and port I/O, interrupt stubs and inline assembly: hardware effects. The TLB is not modelled, so `invlpg` and the reload of CR3 do nothing.
- `PhysicalMem::Init`: parsing of the multiboot map. The bitmap is arbitrary subject to the stated conditions.
- `VirtualMem::Init` lines 54 to 81, the low 4 MB: line 54 stores a byte address in a frame field, so the identity map is not claimed.
- Kernel writes to read-only pages, which CR0.WP decides: `AccessPage` gives the rights of user code, to which the write bits always apply.
- KernelHeap.KernelHeap.Initialize: does not model a heap at address 0, where `firstHeader` is null and nothing can be allocated, nor bounds in the wrong order, where the size wraps and the header lies outside the range.
- KernelHeap.KernelHeap.Free: does not model a pointer that is not a multiple of 4 or lies outside the heap, nor one into a payload whose words imitate a live header; the source trusts what it reads there.
- VirtualMem.VirtualMem.MapWindow: does not model a range that reaches into the window or a 4 MB page, for the reason of the next line.
- VirtualMem.VirtualMem.MapVirtualToPhysical: does not model an address in the window or in a 4 MB page, where the source stores through what is not a table.
- Scheduling.Scheduler.HandleInterrupt: does not model a switch with no runnable thread, where the loop does not end or reads an empty list, nor an interrupt above the heap start without a current thread, where the source writes through null.
- Scheduling.Scheduler.SwitchThreads: leaves out the same two cases.
- Scheduling.Scheduler.AddThread: does not model a thread that was added before.
- LinkedQueue.Queue.InsertInternal: does not model the 32-bit width of `size_`, which would take 2^31 nodes to overflow.
- Queue iterators, the operators that rename other members, and the destructor.
- Storage of deleted nodes and threads: a removed node or thread is unlinked, but its memory is not handed back to the modelled heap, so reuse of its address is not modelled.
- Frames in the interrupted stack: only the stack pointer is modelled, not the registers saved below it.
- VGA console, number formatting, `initrd`, system calls, user programs, process creation and thread stack layout: I/O or unfinished code.
- Members declared and never defined (`Scheduler::Block`, `CurrentThread`, `Heap::alignedMalloc`, `CheckForErrors`, `UsedMemory`).
