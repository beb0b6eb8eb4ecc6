# AuraOS memory and task core

This project models the memory and task core of the AuraOS kernel for x86-64 and proves what the parts
promise, each for all inputs, all states or all runs.

Each component comes twice: as a pure state with its invariant and the operations as functions, and as a
class that changes the kernel's own data structures in place (bitmap bytes, block headers, table entries,
links inside chunks, stacks) and is proved to refine the functions. The class `Machine` runs the heap, the slab
zones, the page tables and their clients side by side in one byte-addressed memory.

| files | component |
|---|---|
| `Bitmap`, `Frames`, `Pmm` | the physical frame allocator: byte bitmap, counter, hint and word scan against a plain linear scan |
| `Boot` | placement of the bitmap and reservation of the image at boot |
| `HeapModel`, `HeapSteps`, `HeapOps`, `HeapRuns`, `KernelHeap` | the boundary-tag heap: tags, free list, coalescing, byte accounts, payload bytes |
| `ZramCodec`, `ZramTokens`, `ZramBlocks`, `ZramExact`, `ZramPage`, `ZramPool` | the page codec, what it writes and accepts, the pages that survive it, and the handle pool on top of the heap |
| `PageTables`, `AddressSpace`, `Vmm` | four-level page tables against a finite map on page numbers |
| `SlabModel`, `Slab` | the eight slab zones with free lists inside the free chunks |
| `Tasks`, `TaskRuns`, `Scheduler` | round-robin scheduling and the context switch on a machine with registers and stacks |
| `Keyboard` | the ring buffer between the interrupt handler and the reader |
| `Ownership`, `Kernel` | all allocators together: which part owns which frame, over every interleaving of calls |
| `Memory`, `Machine` | one memory for headers, links, tables and client data, and the whole system running in it |
| `Sums`, `Division`, `Options` | sums over finite maps and lists, facts about division, optional values |

Masks and shifts of the code are written as division and remainder by powers of two; `PageTables.MaskBits`,
`HeapOps.PowerOfTwoMask` and `HeapOps.RoundDownMask` say what that means for the bits.

## What is true only under a condition

- A compressed page does not always decompress to itself: a literal of length 1 or 2 is tagged with its
  bare length, which the decoder reads as another tag. `ZramExact.Exact` gives the exact set of pages that
  survive: every short literal must be the pair 2, 2, or be the last token and consist of one zero, two
  zeros, or two equal bytes from 2 up. `ZramExact.LostPageIsLost` is a page that does not survive.
- The result 0 of the frame allocator also names frame 0. The clients are sound because boot reserves frame
  0; "frame 0 is used" is part of the invariants, and `Boot.BootTakes` establishes it.
- `vmm_map_page` does not look at the result of the frame allocator. It keeps a tree of tables if and only if
  at least as many frames are free as tables are missing (`AddressSpace.MapExactly`); otherwise the path of
  the page leads through address 0, as in `AddressSpace.FullFails`.
- The walks of `vmm.c` do not look at the page-size bit. The finite map that they refine is the map of the
  pages that lie in no large page; the tables of boot are covered (`KernelMemory.BootTables`).
- `align_up` wraps for requests above 2^64 - 8 (`HeapOps.AlignUpExact`). Heap requests are at most
  `MAX_REQUEST`, 2^64 - 4144, for which no sum in `kmalloc` or `grow_heap` wraps.

## Where the code and its comments differ

- kernel/core/slab.c:68-69 says that the first allocated chunk of a page has the lowest address. The loop
  pushes the chunks in ascending order, so the highest address is handed out first; the model follows the
  loop.
- kernel/include/aura/heap.h:43 lets `kfree` take a pointer from `kmalloc_aligned`. The code then reads the
  48 bytes before that pointer as a header, which they are not; the model does not allow that call.
- kernel/core/sched.c:98-106 draws the trampoline address above the entry pointer on a new stack. The code
  below it, and the model, store the entry pointer above the trampoline address.

## Model

| member | source | states |
|---|---|---|
| `KernelMemory.StepInv` | kernel/main.c:124-134 | Every call of heap, slab zones, page tables or a direct client keeps the invariant of every part and the partition of the used frames among owners; an owned frame stays with its owner unless the client that holds it gives it back |
| `KernelMemory.RunInv` | kernel/main.c:124-134 | The same over every run of such calls; what the heap, the slab zones and the page tables once own they own for good |
| `KernelMemory.BootInv` | kernel/main.c:124-134 | The state after boot satisfies the invariant |
| `KernelMemory.BootTables` | boot/entry64.S:72-97 | The three tables of boot, with a directory of 2 MB pages, form a tree in the sense of the model, and every page from 1 GB on can be mapped and unmapped in it |
| `KernelMemory.ImageNeverHandedOut` | kernel/main.c:124-134 | Over every run after boot, no frame of the heap, the slab zones, the page tables added since boot or a client has another owner, is frame 0, or holds a byte of the kernel image or of the bitmap |
| `KernelMemory.ZeroMeansFailure` | kernel/core/pmm.c:68-119 | In every reachable state the allocator returns 0 exactly when every frame has an owner; any other result is a frame without owner |
| `KernelMemory.HeapAndSlabApart` | kernel/core/slab.c:61-76 | No heap block, header or payload, overlaps a chunk of any slab zone |
| `KernelMemory.StepSegments` | kernel/core/heap.c:73-89 | A heap call either leaves the segments and the frames alone or adds one segment made of frames that were free |
| `KernelMemory.HeapInv` | kernel/core/heap.c:97-193 | A heap call hands frames to the heap only, and keeps everybody else's |
| `KernelMemory.SlabAllocInv` | kernel/core/slab.c:119-137 | `zalloc` hands at most one free frame to the slab zones, and keeps everybody else's |
| `KernelMemory.MapInv` | kernel/arch/x86_64/vmm.c:52-90 | `vmm_map_page` hands only free frames to the page tables, and keeps everybody else's; tables that boot left in the image count as reserved |
| `KernelMemory.GiveInv` | kernel/core/pmm.c:57-66 | A client giving back a frame it holds frees that frame and leaves every other owner untouched |
| `Ownership.PartitionGains` | kernel/core/pmm.c:68-148 | If one owner gains exactly frames that were free, every used frame still has exactly one owner and no free frame has one |
| `Ownership.TablesStay` | kernel/arch/x86_64/vmm.c:52-90 | The table tree stays well formed under any change of the allocator that keeps its frames used |
| `Ownership.HeapStays` | kernel/core/heap.c:73-89 | The heap invariant survives any change of the allocator that keeps the frames of its segments used |
| `Ownership.SlabStays` | kernel/core/slab.c:61-76 | The slab invariant survives any change of the allocator that keeps the frames of its pages used |
| `Machine.Machine.constructor` | kernel/main.c:120-150 | The boot path ends in a machine whose one memory holds the page tables of boot and whose abstract state is the booted one |
| `Machine.Machine.Execute` | kernel/core/heap.c:51-193 | Any interleaving of heap, slab, page-table and frame calls with client writes runs in one memory: headers, links and table entries read from it still represent the abstract state, which is the one the calls lead to, and every byte that stays with a client and is not written keeps its value |
| `Machine.FinalReached` | kernel/main.c:124-134 | The abstract states of such runs are exactly reached by their calls, so what is proved of every run after boot holds of them |
| `Machine.Machine.Do` | kernel/core/heap.c:51-193 | One call or client write keeps all representations, performs the abstract step and spares every other client byte |
| `Machine.Machine.Kmalloc` | kernel/core/heap.c:97-132 | `kmalloc` beside the other parts: the abstract step, every representation kept, every client byte spared |
| `Machine.Machine.Kfree` | kernel/core/heap.c:134-160 | `kfree` beside the other parts: the abstract step, every representation kept, every remaining client byte spared |
| `Machine.Machine.Krealloc` | kernel/core/heap.c:176-193 | `krealloc` beside the other parts: the abstract step, the contents moved, every remaining client byte spared |
| `Machine.Machine.Zalloc` | kernel/core/slab.c:119-137 | `zalloc` beside the other parts: the abstract step, every representation kept, every client byte spared |
| `Machine.Machine.Zfree` | kernel/core/slab.c:139-151 | `zfree` beside the other parts: the abstract step, every representation kept, every remaining client byte spared |
| `Machine.Machine.MapPage` | kernel/arch/x86_64/vmm.c:52-90 | `vmm_map_page` beside the other parts: the abstract step, headers and links kept, every client byte spared |
| `Machine.Machine.UnmapPage` | kernel/arch/x86_64/vmm.c:92-111 | `vmm_unmap_page` beside the other parts: the abstract step, headers and links kept, every client byte spared |
| `Machine.Machine.WriteByte` | kernel/arch/x86_64/vmm.c:113-131 | A byte written to a live payload, a live chunk or a client frame changes no header, no link, no table entry and no other byte |
| `Machine.HeadersStay` | kernel/core/heap.c:27-36 | Stores of any other part leave every block header in memory |
| `Machine.ListStays` | kernel/core/slab.c:29-31 | Stores of any other part leave the free list of every zone in memory |
| `Machine.TablesStayPut` | kernel/arch/x86_64/vmm.c:52-90 | Stores of the heap, the slab zones or clients leave every page table in memory |
| `Machine.PartKept` | kernel/core/heap.c:97-193 | When one part stores into its own frames, the client bytes of all others keep their values |
| `Machine.SegmentByte` | kernel/core/heap.c:73-89 | A byte lies in a heap segment exactly when its frame is owned by the heap |
| `Boot.ReservedExactly` | kernel/main.c:120-133 | A frame is below the reservation count exactly when it holds a byte below the end of the bitmap; the bitmap starts on the first page boundary at or after the image and has just enough bytes for one bit per frame |
| `Boot.ReserveTakes` | kernel/main.c:129-134 | The loop takes exactly the existing frames below the count |
| `Boot.BootTakes` | kernel/main.c:124-134 | After boot there is one frame for every 4096 bytes of the reported memory, or 16384 if none is reported; a frame is used exactly when a byte of it lies below the end of the bitmap, and frame 0 is used |
| `Boot.InitFrames` | kernel/main.c:124-134 | The imperative boot path leaves the allocator in that state |
| `Frames.CountFull` | kernel/core/pmm.c:69-71 | The count of used frames equals the number of frames exactly when all of them are used |
| `Frames.LowestFree` | kernel/core/pmm.c:108-116 | The plain linear scan returns the lowest free frame, or the number of frames when there is none |
| `Frames.LowestRun` | kernel/core/pmm.c:131-146 | The lowest start of the wanted number of consecutive free frames, or the number of frames when no such run exists |
| `Frames.CountSetRange` | kernel/core/pmm.c:137-140 | Marking a free run of n frames adds exactly n to the count of set bits |
| `Frames.AllocFrameTakes` | kernel/core/pmm.c:68-119 | With frame 0 used: 0 is returned exactly when no frame is free, and then nothing changes; otherwise the lowest free frame alone becomes used |
| `Frames.AllocContiguousTakes` | kernel/core/pmm.c:125-148 | With frame 0 used: 0 is returned exactly when no run of n free frames exists, and then nothing changes; otherwise the lowest run of n free frames, and no other frame, becomes used |
| `Frames.MarkExactly` | kernel/core/pmm.c:49-66 | Marking changes exactly the addressed frame, if it exists; freeing a frame just marked restores frames and counter |
| `Frames.AllocThenFree` | kernel/core/pmm.c:68-123 | Giving back an allocated frame restores the frames and the counter, and the next allocation yields the same frame |
| `Frames.Run` | kernel/core/pmm.c:36-148 | Over every sequence of operations, the used counter is the number of set bits and every frame below the hint is used |
| `Frames.MarkFree` | kernel/core/pmm.c:57-66 | Keeps the counter exact and moves the hint back when a frame below it is freed |
| `Frames.MarkUsed` | kernel/core/pmm.c:49-55 | Keeps the counter exact and every frame below the hint used |
| `Bitmap.SetBitView` | kernel/core/pmm.c:32 | Setting a bit of a byte sets that bit and changes no other |
| `Bitmap.ClearBitView` | kernel/core/pmm.c:33 | Clearing a bit of a byte clears that bit and changes no other |
| `Bitmap.WordView` | kernel/core/pmm.c:74 | Bit k of the little-endian word read from the bitmap is bit k mod 8 of byte k / 8 |
| `Bitmap.LowestClearBit` | kernel/core/pmm.c:80-83 | A word other than all ones has a clear bit, and counting the trailing zeros of its complement finds the lowest one |
| `PhysicalMemory.Pmm.constructor` | kernel/core/pmm.c:36-47 | Every frame starts free, and nothing behind the bitmap is written |
| `PhysicalMemory.Pmm.MarkUsed` | kernel/core/pmm.c:49-55 | The bitmap and counter in place follow the abstract operation |
| `PhysicalMemory.Pmm.MarkFree` | kernel/core/pmm.c:57-66 | The bitmap, counter and hint in place follow the abstract operation |
| `PhysicalMemory.Pmm.WordAtView` | kernel/core/pmm.c:79-83 | Word-wise and frame-wise view of the bitmap agree on the lowest free frame of a word |
| `PhysicalMemory.Pmm.ScanWords` | kernel/core/pmm.c:79-106 | The scan over words finds the lowest free frame of its range, or shows that all of it is used |
| `PhysicalMemory.Pmm.FindFree` | kernel/core/pmm.c:73-118 | The three-phase scan returns exactly the frame of the linear scan; its wrap-around phase finds nothing and its final out-of-memory return is not reached while a frame is free |
| `PhysicalMemory.Pmm.AllocFrame` | kernel/core/pmm.c:68-119 | The word scan with its hint refines the linear lowest-free scan |
| `PhysicalMemory.Pmm.AllocContiguous` | kernel/core/pmm.c:125-148 | The one-pass scan refines the search for the lowest free run and sets exactly its bits |
| `PhysicalMemory.Pmm.FreeMemory` | kernel/core/pmm.c:150-152 | The number of clear bits times the page size |
| `PhysicalMemory.Pmm.UsedMemory` | kernel/core/pmm.c:154-156 | The number of set bits times the page size |
| `HeapSteps.SplitSound` | kernel/core/heap.c:106-119 | Splitting a free block keeps tags, free list and byte accounts exact |
| `HeapSteps.ClaimSound` | kernel/core/heap.c:121-123 | Taking a block off the free list keeps tags, free list and byte accounts exact |
| `HeapSteps.ReleaseSound` | kernel/core/heap.c:139-141 | Marking a live block free keeps tags, free list and byte accounts exact |
| `HeapSteps.MergeSound` | kernel/core/heap.c:144-159 | Absorbing the free right neighbour keeps tags, free list and byte accounts exact and the live blocks unchanged |
| `HeapSteps.AddSegmentSound` | kernel/core/heap.c:79-88 | A disjoint run of pages becomes a segment of one free block without disturbing anything |
| `HeapSteps.UsedCovers` | kernel/core/heap.c:140 | The used counter is at least the size of any live block, so subtracting it never underflows |
| `HeapOps.AlignUpExact` | kernel/core/heap.c:43-45 | Rounding up to 8 bytes yields at least the request if and only if the request is at most 2^64 - 8; a larger one wraps to 0 |
| `HeapOps.AlignUpAligned` | kernel/core/heap.c:43-45 | Without wrap-around the result is the least multiple of the alignment that is not below the value |
| `HeapOps.TakeInv` | kernel/core/heap.c:104-125 | Taking a fitting free block keeps the full invariant, adds one live block, and leaves at most 72 bytes beyond the rounded request |
| `HeapOps.GrowReady` | kernel/core/heap.c:73-89 | A run of fresh frames becomes a free segment apart from all others; the live blocks stay as they are |
| `HeapOps.RetryReady` | kernel/core/heap.c:129-131 | After growing, the request is served by the new block |
| `HeapOps.MallocReady` | kernel/core/heap.c:97-132 | `kmalloc` fails without any effect, or adds one live block at an address that was not live, at most 72 bytes larger than the rounded request, and leaves all other live blocks as they are; the invariant is kept |
| `HeapOps.MallocExactly` | kernel/core/heap.c:73-132 | For a positive request of n bytes after rounding and the least number k of pages for it: `kmalloc` returns null exactly when no free block holds n bytes and no k consecutive frames are free; the first fitting entry of the free list is used without taking a frame; otherwise one segment of exactly k pages is added at the lowest free run. With 80 bytes to spare the block is cut to n and the remainder listed first, else it is taken whole |
| `HeapOps.PagesFor` | kernel/core/heap.c:74-75 | The least number of pages that hold a header and the request |
| `HeapOps.PowerOfTwoMask` | kernel/core/heap.c:164 | The model's test for a power of two holds exactly when the number and its predecessor have no bit in common |
| `HeapOps.RoundDownMask` | kernel/core/heap.c:43-45 | Rounding down to a power of two clears exactly the bits of the mask |
| `HeapRuns.FreeInv` | kernel/core/heap.c:134-160 | `kfree` removes exactly its block from the live ones, coalesces fully on both sides, and keeps the invariant; freeing a block that is not live changes nothing |
| `HeapRuns.FreePlace` | kernel/core/heap.c:139-159 | After a free the merged block has the sizes and headers of its free neighbours added; a free left neighbour keeps its place in the free list, otherwise the freed block is listed first; a free right neighbour leaves the list |
| `HeapRuns.KreallocGood` | kernel/core/heap.c:176-193 | `krealloc` keeps the invariant; a failed request leaves heap and frames exactly as they were |
| `HeapRuns.KreallocServes` | kernel/core/heap.c:176-193 | A successful `krealloc` yields a live block with room for the request in place of the old one; every other live block stays |
| `HeapRuns.KreallocExactly` | kernel/core/heap.c:176-193 | A block that already holds the request is returned with nothing changed; the null pointer is a plain `kmalloc`; a request for nothing frees exactly that block and returns null; any other request fails exactly when no free block fits and no run of frames is free, and otherwise is served by what `kmalloc` gives, the old block being freed |
| `HeapRuns.EveryRunGood` | kernel/core/heap.c:97-193 | Over every run of kmalloc, kfree and krealloc: exact boundary tags, exact free list, no two free neighbours, exact accounts, segments backed by used frames |
| `HeapRuns.InitGood` | kernel/core/heap.c:91-95 | The empty heap satisfies the invariant |
| `HeapRuns.Tiling` | kernel/core/heap.c:73-160 | Each byte of a segment lies in exactly one block, header or payload |
| `HeapRuns.LivePayloadsApart` | kernel/core/heap.c:97-160 | A live block overlaps no other block |
| `HeapRuns.AllFreed` | kernel/core/heap.c:143-159 | Once everything is freed, every segment is again a single free block of its pages minus one header |
| `HeapRuns.Conservation` | kernel/core/heap.c:195-205 | Used bytes plus free bytes plus 48 per block is the memory taken from the frame allocator, a whole number of pages |
| `KernelHeap.Heap64.constructor` | kernel/core/heap.c:91-95 | An empty heap over a given frame allocator |
| `KernelHeap.Heap64.FreeListAdd` | kernel/core/heap.c:51-58 | The links in the headers spell the old list with the block in front; no payload byte changes |
| `KernelHeap.Heap64.FreeListRemove` | kernel/core/heap.c:60-71 | The links in the headers spell the old list without the block; no payload byte changes |
| `KernelHeap.Heap64.SplitBlock` | kernel/core/heap.c:105-119 | The header writes of a split refine the abstract split |
| `KernelHeap.Heap64.MergeNext` | kernel/core/heap.c:144-159 | The header writes of a merge refine the abstract merge |
| `KernelHeap.Heap64.GrowHeap` | kernel/core/heap.c:73-89 | Refines growing by one segment; fails exactly when no run of frames is free |
| `KernelHeap.Heap64.Kmalloc` | kernel/core/heap.c:97-132 | The search over linked headers, the split and the single retry refine the abstract allocation; the recursion ends because the grown block is first in the list and fits |
| `KernelHeap.Heap64.Kfree` | kernel/core/heap.c:134-160 | The header writes refine the abstract free, and only bytes of headers change |
| `KernelHeap.Heap64.Krealloc` | kernel/core/heap.c:176-193 | Refines the abstract operation; on success the bytes of the old block arrive at the new address; no other live block changes a byte, and after a failed request neither does the old one; only segments are stored to |
| `KernelHeap.Heap64.KmallocAligned` | kernel/core/heap.c:162-174 | Null exactly for a zero size, an alignment that is no power of two or a failed allocation, and then nothing changes; otherwise the least aligned address that leaves 8 bytes in front, with the pointer of the block stored there, and with the requested bytes inside that one fresh live block; no live block changes a byte |
| `KernelHeap.Heap64.HeapGetUsed` | kernel/core/heap.c:195 | The sum of the sizes of the live blocks |
| `KernelHeap.Heap64.HeapGetFree` | kernel/core/heap.c:197-205 | The walk over the free list adds up the sizes of all free blocks |
| `KernelHeap.RetryIsMalloc` | kernel/core/heap.c:129-131 | Once the heap has grown, the retry stops at the head of the free list, with the result that the whole call specifies |
| `KernelHeap.MallocKeepsBytes` | kernel/core/heap.c:97-132 | An allocation changes no byte of a live payload |
| `KernelHeap.FreeKeepsBytes` | kernel/core/heap.c:134-160 | A free changes no byte of any other live payload |
| `KernelHeap.LivePayloadKept` | kernel/core/heap.c:27-36 | Writing headers does not touch the payload of a live block |
| `KernelHeap.RemoveLinked` | kernel/core/heap.c:60-71 | Relinking the two neighbours removes one element from a doubly linked list and keeps the rest in order |
| `ZramCodec.EncodeExpands` | kernel/core/zram.c:28-89 | The tokens the compressor chooses stand for the whole page |
| `ZramTokens.NextExactly` | kernel/core/zram.c:37-77 | A token is the one the compressor writes if and only if it fits the page bytes: four or more zeros, or six or more equal bytes, taken as far as they go up to 255; else a literal that holds no start of four zeros and goes on until it is full or the buffer or the page ends or zeros follow |
| `ZramTokens.EncodeExactly` | kernel/core/zram.c:28-89 | A list of tokens is the encoding of the page if and only if each fits at its position, five bytes of buffer are left for each, and together they cover the page |
| `ZramTokens.RefusedExactly` | kernel/core/zram.c:33-35 | Whenever -1 is returned, fitting tokens lead to a position before the end of the page at which fewer than five bytes of buffer are left |
| `ZramTokens.PageTokens` | kernel/core/zram.c:28-89 | Each token of a page fits at the position that the tokens before it cover |
| `ZramTokens.UniformPage` | kernel/core/zram.c:52-63 | A page of one byte compresses to 34 bytes if the byte is 0 and to 51 otherwise |
| `ZramTokens.PatternCompresses` | tests/test_zram.c:51-60 | The page in which every 64 bytes hold the next number compresses to 191 bytes |
| `ZramCodec.DecodeStream` | kernel/core/zram.c:91-124 | On a stream without literals of length 1 or 2 the main loop of the decoder consumes all input and has then written exactly the bytes the tokens stand for |
| `ZramCodec.LoopThenPad` | kernel/core/zram.c:95-123 | The decoder is its main loop followed by padding with zeros |
| `ZramCodec.PlainRoundTrip` | kernel/core/zram.c:28-124 | A page that compresses without a literal of length 1 or 2 decompresses to itself, with the input used up exactly when output byte 4096 is written |
| `ZramBlocks.BlocksDecode` | kernel/core/zram.c:91-124 | Well-formed blocks that fill the page or end the stream decode to the bytes they stand for, cut at the end of the page or filled up with zeros, whatever follows a full page |
| `ZramBlocks.RefusesExactly` | kernel/core/zram.c:98-113 | The decoder returns -1 exactly when well-formed blocks, too few to fill the page, lead to input that starts with no block |
| `ZramExact.Exact` | kernel/core/zram.c:28-124 | A compressed page decompresses to itself if and only if every literal of length 1 or 2 among its tokens is one the decoder happens to get right, a condition on the token list alone |
| `ZramExact.ExactFrom` | kernel/core/zram.c:28-124 | The same for the rest of a page, from any point the compressor reaches |
| `ZramExact.PlainIsFaithful` | kernel/core/zram.c:81 | Streams without literals of length 1 or 2 satisfy the condition |
| `ZramExact.ShortLiteral` | kernel/core/zram.c:70-77 | After a literal of length 1 or 2 the page ends or four zeros follow |
| `ZramExact.LostPageIsLost` | kernel/core/zram.c:79-117 | The page of a byte 5 and 4095 zeros encodes to 36 bytes and comes back, without an error, as all zeros |
| `ZramPage.HeadStep` | kernel/core/zram.c:32-87 | One turn of the main loop keeps the output within the input plus one byte per 127, plus one |
| `ZramPage.NeverRefused` | kernel/core/zram.c:33-35 | A destination of at least 4133 bytes never yields -1 |
| `ZramPage.AtLeast34` | kernel/core/zram.c:28-89 | Every successful result is at least 34 bytes long |
| `ZramPage.ChooseToken` | kernel/core/zram.c:37-77 | The scanning loops choose the specified token |
| `ZramPage.Emit` | kernel/core/zram.c:79-85 | Writes the encoding of a token at its place and nothing else |
| `ZramPage.CompressPage` | kernel/core/zram.c:28-89 | Returns -1 exactly when the specified encoding does not fit, otherwise its length with its bytes in the buffer; nothing beyond `max_dst` is written |
| `ZramPage.DecompressPage` | kernel/core/zram.c:91-124 | Returns -1 exactly for the malformed streams, otherwise fills the page as specified and nothing beyond it |
| `ZramPage.LiteralBlock` | kernel/core/zram.c:110-117 | A literal block consumes the bytes it copies and is refused when empty or cut off |
| `ZramPool.Zram.constructor` | kernel/core/zram.c:126-141 | The pool starts empty, the ratio at 100 |
| `ZramPool.Zram.Store` | kernel/core/zram.c:143-184 | Each error code exactly in its case, and then nothing is stored and the heap is as before; success binds the lowest free handle to the encoding of the page, in a block that `kmalloc` gave; no other handle changes |
| `ZramPool.Zram.Load` | kernel/core/zram.c:186-194 | Decodes the bytes of the handle into the buffer, refuses unknown handles, and changes no handle |
| `ZramPool.Zram.Free` | kernel/core/zram.c:196-213 | Empties the handle and frees its heap block, refuses unknown handles without any effect, and changes no other handle |
| `ZramPool.SavingsPositive` | kernel/core/zram.c:174-180 | Compressed bytes never exceed original bytes, the sums and the ratio fit in 32 bits, and the ratio is at least 101 while a page is stored, so the negative-saving branch of the monitor is never taken |
| `ZramPool.StoredOk` | kernel/core/zram.c:174-180 | After a store the statistics are again the count and the sums over the used slots |
| `ZramPool.LoadsBack` | kernel/core/zram.c:143-194 | What was stored loads back as the same page exactly under the condition of the codec |
| `ZramPool.CompressibleExactly` | kernel/core/zram.c:157-160 | A page is kept exactly when its encoding fits 4096 bytes and has at most 4031; pages of one byte and the pattern of 64-byte runs are kept, in 34 or 51 and in 191 bytes |
| `ZramPool.KeptPool` | kernel/core/zram.c:143-213 | A heap operation that keeps the live payloads keeps the contents of every handle |
| `PageTables.IndexMacros` | kernel/arch/x86_64/vmm.c:26-29 | The four index macros are the base-512 digits of the 36-bit page number |
| `PageTables.LeafFields` | kernel/arch/x86_64/vmm.c:88 | A leaf entry is present, holds the frame address of `phys` and the flag bits outside the address mask, among them the write and user rights |
| `PageTables.LinkFields` | kernel/arch/x86_64/vmm.c:64 | A link entry is present, writable and for users, has no other flag, and leads to its table |
| `PageTables.MaskBits` | kernel/arch/x86_64/vmm.c:26-31 | The address mask keeps bits 12 to 51, the index macros keep nine bits from 39, 30, 21 and 12 on, and present, writable, user and page-size are bits 0, 1, 2 and 7 |
| `PageTables.AttachTree` | kernel/arch/x86_64/vmm.c:61-85 | Entering a zeroed frame that is no table keeps the tables a tree |
| `PageTables.AttachWalk` | kernel/arch/x86_64/vmm.c:61-85 | Entering a fresh zeroed table changes no translation |
| `PageTables.WalkFrame` | kernel/arch/x86_64/vmm.c:88 | Writing one last-level entry changes no translation of another page |
| `AddressSpace.NextTableOk` | kernel/arch/x86_64/vmm.c:60-85 | One level down, when the table is there or a frame is free: the space stays well formed, no translation changes, a new table is a zeroed frame that was free and is none of the tables, and free frames fall short of missing tables by as much as before |
| `AddressSpace.ThreeFramesSuffice` | kernel/arch/x86_64/vmm.c:52-90 | Three free frames are enough for any mapping outside large pages |
| `AddressSpace.MapRefines` | kernel/arch/x86_64/vmm.c:52-90 | `vmm_map_page` refines the update of the finite map at its own page, on any well-formed tree with as many free frames as missing tables; the tables it adds were free frames |
| `AddressSpace.MapRights` | kernel/arch/x86_64/vmm.c:60-88 | After `vmm_map_page` every entry is as before except on the path of the page: the leaf, and links that allow writing and user access where tables were missing; so the page may be written, or used in user mode, exactly when its flags say so and no entry that was there before forbids it |
| `AddressSpace.GetsNullExactly` | kernel/arch/x86_64/vmm.c:60-85 | Some level of the descent is given frame 0 for a missing table if and only if more tables are missing than frames are free |
| `AddressSpace.MapExactly` | kernel/arch/x86_64/vmm.c:52-90 | `vmm_map_page` leaves a tree of tables under the root if and only if at least as many frames were free as tables were missing; otherwise, and only then, the path of the page passes through a table at address 0 |
| `AddressSpace.FullFails` | kernel/arch/x86_64/vmm.c:61-65 | With all frames used and an empty root, any mapping leaves the root leading to address 0 |
| `AddressSpace.UnmapRefines` | kernel/arch/x86_64/vmm.c:92-111 | `vmm_unmap_page` refines the removal of its own page and keeps tables and frames |
| `AddressSpace.MapThenTranslate` | kernel/arch/x86_64/vmm.c:52-131 | After a map the page translates to its frame and all others as before; after an unmap to nothing, all others as before the map |
| `VirtualMemory.Vmm.constructor` | kernel/arch/x86_64/vmm.c:47-50 | Takes over a well-formed tree that is in memory |
| `VirtualMemory.Vmm.NextTable` | kernel/arch/x86_64/vmm.c:60-67 | Allocating, zeroing and entering a table in place refines one step of the descent, also when the frame is the null frame |
| `VirtualMemory.Vmm.MapPage` | kernel/arch/x86_64/vmm.c:52-90 | The word stores in memory refine the abstract map operation, whatever is left in the allocator; with enough free frames the memory again holds a well-formed tree, and only bytes of tables change |
| `VirtualMemory.Vmm.UnmapPage` | kernel/arch/x86_64/vmm.c:92-111 | The store in memory refines the abstract unmap operation |
| `VirtualMemory.Vmm.VirtToPhys` | kernel/arch/x86_64/vmm.c:113-131 | The four-level walk returns the frame address of the finite map with the page offset, and 0 for an unmapped page |
| `SlabModel.ZoneFor` | kernel/core/slab.c:110-117 | The smallest zone whose chunks hold the request |
| `SlabModel.ChunksApart` | kernel/core/slab.c:61-76 | Two different chunks, of the same or of different zones, do not overlap |
| `SlabModel.RefillInv` | kernel/core/slab.c:61-76 | A fresh page puts exactly its aligned chunks on the free list of its empty zone; live chunks and the other zones stay as they are |
| `SlabModel.ZallocInv` | kernel/core/slab.c:119-137 | `zalloc` keeps the invariant and yields an aligned chunk that was live in no zone, or fails without any effect |
| `SlabModel.ZallocExactly` | kernel/core/slab.c:119-137 | `zalloc` returns null exactly for size 0, for more than 2048 bytes, or with an empty free list and no free frame; a free list that is not empty gives its head and nothing else changes; otherwise exactly the lowest free frame becomes a page of the zone, its highest chunk is returned and its other chunks are listed |
| `SlabModel.ZoneSizes` | kernel/core/slab.c:39-41 | Eight chunk sizes from 16 to 2048, each twice the one before; requests above 2048 bytes have no zone, others get less than twice what they need |
| `SlabModel.ZfreeInv` | kernel/core/slab.c:139-151 | `zfree` takes exactly its chunk out of the live ones and keeps the invariant: acyclic free lists, free plus live chunks equal to pages times chunks per page |
| `SlabModel.FreeThenAlloc` | kernel/core/slab.c:119-151 | The last chunk freed is the first reused, and handing it out again restores the zones exactly |
| `SlabModel.NotFree` | kernel/core/slab.c:119-151 | A live chunk is on no free list |
| `SlabModel.EmptyInv` | kernel/core/slab.c:97-101 | The initial zones satisfy the invariant |
| `SlabModel.CarveChunks` | kernel/core/slab.c:70-74 | The carved chunks are exactly the aligned addresses of the page |
| `SlabAllocator.Zones.constructor` | kernel/core/slab.c:80-107 | All zones start empty |
| `SlabAllocator.Zones.SizeToZoneIndex` | kernel/core/slab.c:110-117 | The table lookup returns the smallest fitting zone, -1 when there is none |
| `SlabAllocator.Zones.ZoneRefill` | kernel/core/slab.c:61-76 | Linking the chunks inside the page itself refines the abstract refill |
| `SlabAllocator.Zones.CarvePage` | kernel/core/slab.c:68-74 | The links stored in the chunks spell the carved list, and the lists of all other zones stay intact |
| `SlabAllocator.Zones.Zalloc` | kernel/core/slab.c:119-137 | Following the links in memory refines the abstract operation; stores go to fresh pages only, and chunks that stay live keep their contents |
| `SlabAllocator.Zones.Zfree` | kernel/core/slab.c:139-151 | Storing the link into the freed chunk refines the abstract operation; chunks that stay live keep their contents |
| `SlabAllocator.Zones.WriteByte` | kernel/core/slab.c:28-31 | A byte stored inside a live chunk is there afterwards, and every free list is as it was |
| `SlabAllocator.ZallocKeepsBytes` | kernel/core/slab.c:61-76 | Stores into fresh pages change no byte of a live chunk of any zone |
| `SlabAllocator.ZfreeKeepsBytes` | kernel/core/slab.c:147-150 | The link stored by `zfree` changes no byte of any chunk that stays live |
| `Tasks.PushThenResume` | kernel/arch/x86_shared/switch.S:36-63 | Restoring the saved frame gives the registers an ordinary return would leave |
| `Tasks.RoundRobin` | kernel/core/sched.c:151-163 | The search finds the cyclic successor of the current task, and nobody when it is alone |
| `Tasks.YieldSwitches` | kernel/core/sched.c:147-174 | A yield with two or more tasks moves to the next task, resumes its saved context, and saves the return context of the current one |
| `Tasks.YieldInv` | kernel/core/sched.c:165-174 | Exactly the current task is RUNNING, other created tasks READY, and suspended frames lie in their own stacks |
| `Tasks.AloneStays` | kernel/core/sched.c:162 | A task alone keeps registers, memory and ticks when it yields |
| `Tasks.CreateExactly` | kernel/core/sched.c:69-144 | Without an entry point or a free slot nothing changes and the result is -1; otherwise the next slot holds a READY task with no ticks and no other task or stack is touched |
| `Tasks.CreateInv` | kernel/core/sched.c:68-145 | Creation keeps that invariant |
| `Tasks.NextInv` | kernel/core/sched.c:41-174 | Every step of every task keeps that invariant |
| `Tasks.StartedInv` | kernel/core/sched.c:41-62 | The state after `sched_init` satisfies the invariant |
| `Tasks.EveryRunInv` | kernel/core/sched.c:41-174 | In every state reached by any work, yields and creations exactly the current task is RUNNING, the other created tasks are READY, and suspended frames lie in their own stacks |
| `Tasks.ContextKept` | kernel/arch/x86_shared/switch.S:36-63 | No step of another task changes how a suspended task will continue |
| `Tasks.ContextKeptOverRun` | kernel/arch/x86_shared/switch.S:36-63 | The same over every interleaved run |
| `Tasks.ResumesUnchanged` | kernel/arch/x86_shared/switch.S:36-63 | Whatever other tasks do meanwhile, a task resumes with its callee-saved registers, return address and stack pointer as an ordinary return leaves them |
| `TaskRuns.FreshContext` | kernel/core/sched.c:115-136 | A new stack resumes in the trampoline with zeroed registers and the entry pointer on a 16-byte aligned top |
| `TaskRuns.FirstTurn` | kernel/arch/x86_shared/switch.S:80-89 | Over every run between creation and first turn, the first switch reaches the trampoline, which calls the given entry with the stack pointer 16-byte aligned |
| `TaskRuns.AheadOverRun` | kernel/core/sched.c:147-174 | The current task and all ticks after a window of turns are determined by the number of turns |
| `TaskRuns.Fairness` | kernel/core/sched.c:147-174 | In any window without creation the tick gains of two tasks differ by at most one, and as many turns as tasks run each task once and return to the first |
| `Scheduler.Cpu64.constructor` | kernel/core/sched.c:41-62 | Reaches the abstract initial state, in which the caller is the running task 0 |
| `Scheduler.Cpu64.SwitchTo` | kernel/arch/x86_shared/switch.S:36-63 | The pushes and pops step by step: the frame of the old task is saved, its stack pointer recorded, the frame of the new task restored |
| `Scheduler.Cpu64.FindReady` | kernel/core/sched.c:151-160 | The search loop returns the first READY task in cyclic order, or -1 |
| `Scheduler.Cpu64.DoYield` | kernel/core/sched.c:147-174 | Refines the abstract yield and keeps the invariant |
| `Scheduler.Cpu64.CreateTask` | kernel/core/sched.c:68-145 | Stepping the pointer down builds the abstract initial stack; refused creations change nothing |
| `Keyboard.InterruptInv` | kernel/drivers/keyboard.c:44-62 | A key press keeps the ring a window of the accepted characters |
| `Keyboard.ReaderInv` | kernel/drivers/keyboard.c:71-76 | Every step of the reader keeps it too |
| `Keyboard.NothingLost` | kernel/drivers/keyboard.c:44-76 | In every interleaving the returned characters are a prefix of the accepted ones, at most 31 are pending, and these stand in the ring in order |
| `Keyboard.NoOverwrite` | kernel/drivers/keyboard.c:55-59 | An interrupt never overwrites an unread slot |
| `Keyboard.AcceptedExactly` | kernel/drivers/keyboard.c:49-60 | A key press is stored exactly when it is a make code with a character and fewer than 31 characters are pending |
| `Keyboard.Layout` | kernel/drivers/keyboard.c:28-37 | The character of every key, by rows of the keyboard; the remaining codes give none |
| `Keyboard.Driver.constructor` | kernel/drivers/keyboard.c:64-69 | The ring starts empty |
| `Keyboard.Driver.Handler` | kernel/drivers/keyboard.c:44-62 | The handler in place refines the abstract key press |
| `Keyboard.Driver.GetChar` | kernel/drivers/keyboard.c:71-76 | Without interruption it returns the oldest pending character and removes it, or 0 exactly when none is pending |
| `Keyboard.Driver.HasKey` | kernel/drivers/keyboard.c:78-80 | True exactly when an accepted character was not returned yet |

## Left out

- Freeing a pointer from `kmalloc_aligned`: the 48 bytes before it are no header; alignment and containment are proved.
- A second `kfree` after the block was merged into a neighbour: the stale header inside the merged block is not modelled; a second free of a block that still has its header is, and changes nothing.
- Heap requests above `MAX_REQUEST`: they wrap in the arithmetic of the code; the threshold of `align_up` is proved exactly.
- Physical addresses above 2^52 and the wrap-around of address sums at boot and in `pa + offset`: addresses are unbounded naturals.
- Null pointers passed to `zram_store`, `zram_load` and as the name of a task, and the task name itself: pointers to buffers are modelled as the buffers.
- The decompressor's output buffer after it has returned -1: only the result is stated.
- Mapping, unmapping or translating a page inside a 2 MB entry: the walk of the code takes the large page for a table; all other pages of a tree with such entries are covered.
- Byte order and width of words in memory: a stored word is kept as eight bytes that each know the word and their place, so that a word is read back only while none of its bytes was overwritten.
- The frame bitmap as bytes of the shared memory: it is an array of its own; in the kernel it lies in reserved frames.
- Running out of frames inside `Machine.Machine.MapPage`: there the call is made with enough free frames; `VirtualMemory.Vmm.MapPage` covers the other case.
- TLB, CR3 and `invlpg`: no state that this code can observe.
- Words that overlap at unaligned addresses in the stack memory: it is a map from addresses to 8-byte words.
- The park loop of `task_trampoline` after an entry function returns: only yields.
- Interrupts during allocator calls: no handler calls the allocators and the code has no locks, so they run one call at a time.
- `pmm_get_total_memory`, `zram_get_stats`, `sched_current` and other getters: easy members.
- The Multiboot2 walk, the monitor beyond the zRAM saving, the text interface, serial output, GDT, IDT, PIT, panic and page-fault handlers, and the i686 variants: easier than the rest or without state.
