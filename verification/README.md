# Issanium: a verified model of memory, scheduling and drawing

Issanium is a small x86_64 kernel. This project models its stateful core in Dafny and proves
what it keeps over whole runs:

- **Frames** (`Pmm.dfy`): the bitmap allocator, on the array of memory words that also holds
  the bitmap. The bitmap refines a set of free frames.
- **Page tables** (`PageTree.dfy`, `Vmm.dfy`, `VmmRuns.dfy`): the four-level walk over tables
  that lie in allocator frames, in the same array. The words in memory encode a tree; the tree
  refines a plain map from pages to entry words.
- **Kernel heap** (`HeapPages.dfy`, `Chunks.dfy`, `Headers.dfy`, `Heap.dfy`): growth over the
  two layers below, and the doubly linked chunk list with first fit, splitting and two-sided
  merging. `Boot.dfy` runs the three initialisations in the kernel's order.
- **Scheduler** (`Machine.dfy`, `Scheduling.dfy`, `SchedulerRuns.dfy`, `Processes.dfy`,
  `Kmain.dfy`): the ring of processes, the fake first frame, the timer stub as pushes and pops on
  registers and a stack. Over every run from boot, through creation and start, one CPU with a
  timer refines one CPU for each process. `Kmain.dfy` puts processes on the heap and drives the
  end of boot.
- **Renderer** (`Blend.dfy`, `Scaling.dfy`, `Images.dfy`, `Pictures.dfy`, `Framebuffer.dfy`): the
  packed blend in wrapping 32-bit arithmetic, 16.16 scaling, and the two image drawing loops on a
  back buffer. `TgaPixels.dfy` says which bytes of a file each pixel of the screen comes from.
- **Library** (`Lib.dfy`): `itoa` and `memmove`. `Words.dfy` holds the bit arithmetic that
  everything above uses.

Methods of classes follow the kernel's code statement by statement; ghost fields carry the
abstract state. The theorems over runs are lemmas about that abstract state.

## Results that are about defects

- **Heap growth always page-faults.** `kmalloc` writes the new chunk's header at `heap_end`
  after `expand` has advanced it (src/memory/heap.cpp:94), which is the first page that is not
  mapped; the page-fault handler halts. `Heap.KernelHeap.Kmalloc` is the code as it is: it
  succeeds if and only if some chunk fits without growing. The first request after boot is the
  back buffer (src/video/framebuffer.cpp:27-28): `Boot.BackBuffer` faults if and only if it has
  more than 4 MiB - 32 bytes (and at most 2^64 - 8), and `Boot.FullHdFaults` is the case of 1920
  by 1080 pixels. `Heap.GrowthTiles` says exactly where the new chunk would have to go.
  `Heap.KernelHeap.KmallocSavedEnd` is a labelled variant, not the repository's code, that uses
  the heap's old end; there the tiling survives growth and one recursion suffices for requests
  up to 64 * 4096 - 32 bytes. For a larger one, `Heap.GrowthFits` shows that asking again after
  one growth finds nothing again.
- **The size of a request can wrap.** `Heap.Align8Value`: rounding up keeps at least the
  requested size if and only if the size is at most 2^64 - 8.
- **No-execute mappings do not read back.** `Vmm.ReadsBackUnlessNx`: because `virt_to_phys`
  keeps bit 63, it returns the mapped frame if and only if the no-execute flag is absent;
  `Vmm.ReadsBack` is the same for arbitrary flags.
- **A tick between `create_process` and `start_scheduling`.** Interrupts are enabled at
  src/kernel/main.cpp:113, processes are created from line 126 on. `Scheduling.EarlyTick`: a tick
  before the start, at an instruction that is not the first process's entry, makes a process lose
  its registers if and only if one exists, which is the branch at src/kernel/process.cpp:74.
  `Scheduling.EarlyTickAfterCreate` is the case right after the first `create_process`.
- **Drawing an image without pixels to scale reads a pixel.** `Images.EmptyReadable`: it
  stays inside the file if and only if the bytes of row 0, up to the last column sampled, follow
  the header; an image with pixels is always read inside (`Images.CompleteReadable`).

Scaled drawing is never above the exact source index floor(j * size / target), and
`Scaling.SourceErrorIs` gives its error at every target index as a formula. Up to a target of 65536
it is at most one (`Scaling.SourceWithinOne`). That bound is sufficient, not necessary:
`Scaling.MissesByTwo` has errors of two at targets 65809 and 196608, while `Scaling.SourceExact`
shows that no index is off, however large the target, when it divides size * 65536.

## Side conditions

Stated in the contracts, from the code's only callers and from the standards it relies on:
usable memory-map entries are page aligned, disjoint, and leave out page 0 (Memory Map Feature of
the Limine Boot Protocol); virtual addresses are below 2^47; `free` and `kfree` get what is
allocated (`kfree` also null); `VMM::map` is called only by the heap (src/memory/heap.cpp:35);
the heap stays below 2^47; each stack has room for a frame and for what `schedule` uses, which is
modelled as arbitrary writes below the frame; the kernel is built without a red zone
(GNUmakefile:19); the timer stub runs with interrupts off.

## Model

| member | source | states |
|---|---|---|
| Pmm.Allocator.Init | src/memory/pmm.cpp:38-106 | for every valid memory map, in terms of the fields of its entries: the managed frames are exactly the pages of entries of kind 0 that hold no byte of the bitmap, their bits are the clear ones and the counter is their number; the bitmap lies in the first such entry that can hold it, and is null exactly when none can; nothing outside the bitmap is written |
| Pmm.Allocator.HighestUsable | src/memory/pmm.cpp:49-56 | the result is the largest end of an entry of kind 0, attained, or 0 if there is none |
| Pmm.Allocator.PlaceBitmap | src/memory/pmm.cpp:59-73 | the first usable entry that is long enough is chosen, and the bitmap's pages lie wholly inside it |
| Pmm.Allocator.Fill | src/memory/pmm.cpp:80-81 | every frame is marked used; only bitmap words change |
| Pmm.Allocator.ClearUsable | src/memory/pmm.cpp:83-94 | exactly the pages inside entries of kind 0 become free, and the counter is their number |
| Pmm.Allocator.ReserveBitmap | src/memory/pmm.cpp:96-103 | exactly the bitmap's pages are taken out again, and the counter follows |
| Pmm.Allocator.BitmapSet | src/memory/pmm.cpp:23-25 | the set of free frames loses exactly this frame |
| Pmm.Allocator.BitmapClear | src/memory/pmm.cpp:27-29 | the set of free frames gains exactly this frame |
| Pmm.Allocator.BitmapTest | src/memory/pmm.cpp:31-33 | true exactly for frames that are not free |
| Pmm.Allocator.Alloc | src/memory/pmm.cpp:111-121 | returns the lowest free frame and removes it, or null exactly when no frame is free; the counter stays the number of free frames |
| Pmm.Allocator.Release | src/memory/pmm.cpp:123-127 | an allocated frame becomes free again, and no other frame changes |
| Pmm.SetFrame | src/memory/pmm.cpp:23-25 | or-ing one bit into one word takes exactly one frame out of the represented set |
| Pmm.ClearFrame | src/memory/pmm.cpp:27-29 | and-ing one complemented bit adds exactly one frame to the represented set |
| Pmm.NoDoubleHandout | src/memory/pmm.cpp:111-127 | over any run, a frame handed out twice was freed in between |
| Pmm.RunBalance | src/memory/pmm.cpp:111-130 | over any run, the number of free frames changes by frees minus allocations |
| Vmm.Indices | src/memory/vmm.cpp:84-88 | the four shifts and masks are the base-512 digits of the page number, and they name its table |
| Vmm.TableEntry | src/memory/vmm.cpp:45-46 | the or of an aligned frame and the flags is present and masks back to the frame |
| Vmm.ReadsBack | src/memory/vmm.cpp:100-153 | a mapping reads back as its frame if and only if the flags add no bit above the page offset |
| Vmm.ReadsBackUnlessNx | src/memory/vmm.cpp:153-153 | with low flags and optionally no-execute: reads back if and only if no-execute is not set |
| Vmm.AddressSpace.GetOrCreateTable | src/memory/vmm.cpp:28-49 | finds the table, or makes it in the lowest free frame, zeroed and linked by one entry, or fails only without free frames; the tables remain a tree, data frames and the upper half are untouched |
| Vmm.AddressSpace.TableEntriesAre | src/memory/vmm.cpp:46-97 | every table entry is the next table's frame with exactly the present, writable and user bits |
| Vmm.AddressSpace.Init | src/memory/vmm.cpp:54-76 | the root is a fresh frame with an empty lower half and the old upper half, entry by entry; null exactly when no frame was free |
| Vmm.AddressSpace.Map | src/memory/vmm.cpp:81-105 | takes exactly as many frames as levels are missing and changes exactly one page, or, with too few frames, changes no translation; every frame taken becomes a table; data frames and the upper half are untouched |
| Vmm.AddressSpace.Unmap | src/memory/vmm.cpp:110-130 | removes exactly one page from the map; tables stay |
| Vmm.AddressSpace.VirtToPhys | src/memory/vmm.cpp:135-154 | equals lookup in the abstract page map, null for unmapped pages |
| PageTree.AddTable | src/memory/vmm.cpp:41-46 | hanging a zeroed unshared frame under an empty entry keeps the encoding and the tree shape |
| PageTree.SetLeaf | src/memory/vmm.cpp:101-127 | writing one last-level entry changes exactly that page of the encoded tree |
| VmmRuns.RunMeaning | src/memory/vmm.cpp:81-154 | over any run of maps, failed maps, unmaps and frame traffic, the tables translate as a plain map updated by the successful calls |
| VmmRuns.RunOwnership | src/memory/vmm.cpp:28-49 | over any run, tables stay where they are and no table's frame is ever free |
| VmmRuns.RemapTakesNone | src/memory/vmm.cpp:91-101 | once a page was mapped, mapping it or a neighbour in its table again, also after unmapping, takes no frame and cannot fail |
| VmmRuns.AfterFailure | src/memory/vmm.cpp:35-39 | after a failed map and until a frame is freed, a map succeeds if and only if no table is missing |
| HeapPages.CostClosedForm | src/memory/heap.cpp:28-38 | growing from k to n pages takes n - k data frames plus the differences of ceil(./512), ceil(./2^18) and ceil(./2^27) |
| HeapPages.InitialCost | src/memory/heap.cpp:21-43 | the initial 1024 pages take 1028 frames |
| HeapPages.HeapMissing | src/memory/vmm.cpp:91-98 | heap page k misses a table at a level exactly when its index there starts over |
| HeapPages.CountPageFrames | src/memory/heap.cpp:28-38 | k pages that share no frame lead to k frames |
| Heap.KernelHeap.Expand | src/memory/heap.cpp:28-38 | with enough frames, exactly count pages are added, each on a frame of its own, at exactly the closed-form cost; never is anything mapped at or past heap_end |
| Heap.KernelHeap.Init | src/memory/heap.cpp:41-53 | with 1028 free frames: one free chunk covers 4 MiB and 1028 frames are gone; it page-faults only if the first page did not get mapped |
| Heap.KernelHeap.Conservation | src/memory/heap.cpp:28-38 | the managed frames are the disjoint union of free frames, page tables and the frames under heap pages, one for each page |
| Heap.Align8Value | src/memory/heap.cpp:56-57 | rounds up to a multiple of 8; at least the request exactly when it is at most 2^64 - 8, and 0 otherwise |
| Heap.KernelHeap.Kmalloc | src/memory/heap.cpp:55-103 | the first chunk that fits is taken: at its address there is then a used block of at least the aligned size n and less than n + 40; with 40 bytes more than n it is cut to exactly n and the rest is a free chunk that ends where the old one did; other chunks stay, and only headers of the new list are written. When none fits, growth touches the unmapped page at heap_end and faults, with every header unchanged |
| Heap.KernelHeap.TakeFirstFit | src/memory/heap.cpp:59-84 | the search takes the first free chunk in list order that is large enough, and returns null exactly when there is none |
| Heap.KernelHeap.Take | src/memory/heap.cpp:70-82 | the header writes turn the list into the carved list, chunk by chunk, still linked both ways and tiling the heap |
| Heap.KernelHeap.Kfree | src/memory/heap.cpp:106-126 | a live block becomes free and merges with free neighbours on both sides; null does nothing; only headers of the old list are written |
| Heap.KernelHeap.Mark | src/memory/heap.cpp:82-111 | only the used flag of that chunk changes |
| Heap.KernelHeap.Absorb | src/memory/heap.cpp:114-125 | the header writes of one merge keep the list linked and tiling |
| Heap.GrowthTiles | src/memory/heap.cpp:86-99 | a chunk appended by growth keeps the tiling if and only if it starts where the heap ended |
| Heap.GrowthCanonical | src/memory/heap.cpp:90-99 | growth leaves no two free neighbours if and only if the last chunk was in use |
| Heap.GrowthFits | src/memory/heap.cpp:101-102 | asking again after one growth finds the new chunk if and only if the request is at most 64 * 4096 - 32 |
| Heap.KernelHeap.KmallocSavedEnd | src/memory/heap.cpp:55-103 | variant with the old heap_end: growth keeps tiling, mapping and frame counts, recurses once, and returns the start of the new chunk |
| Heap.KernelHeap.Store | src/memory/heap.cpp:35-36 | a word written through the page tables reads back at that heap address, changes no other heap word, and leaves bitmap, tables and mappings as they are |
| Heap.KernelHeap.Load | src/memory/heap.cpp:35-36 | a word read through virt_to_phys is the heap word at that address |
| Heap.KernelHeap.PlacesApart | src/memory/heap.cpp:30-36 | different heap addresses lead to different words of memory |
| Headers.NextPrev | src/memory/heap.cpp:12-17 | next and prev are mutually inverse along the list |
| Headers.SplitLinked | src/memory/heap.cpp:70-79 | the writes of a split produce the headers of the split layout |
| Headers.MergeLinked | src/memory/heap.cpp:113-125 | the writes of a merge produce the headers of the merged layout |
| Headers.DataUntouched | src/memory/heap.cpp:70-126 | the header writes of an allocation or a free never touch the data of a live block |
| Chunks.AllocCarves | src/memory/heap.cpp:70-83 | what allocation does to each chunk, without reference to how it is computed |
| Chunks.AllocTiles | src/memory/heap.cpp:70-83 | allocation keeps the chunks covering the heap without gap or overlap |
| Chunks.AllocCanonical | src/memory/heap.cpp:70-83 | allocation never makes two free chunks neighbours |
| Chunks.AllocLive | src/memory/heap.cpp:70-83 | allocation adds exactly one live block and leaves all others untouched |
| Chunks.FreeTiles | src/memory/heap.cpp:106-126 | freeing keeps the tiling |
| Chunks.FreeCanonical | src/memory/heap.cpp:113-125 | freeing leaves no two free neighbours |
| Chunks.FreeLive | src/memory/heap.cpp:106-126 | freeing removes exactly one live block and leaves all others untouched |
| Chunks.LiveDisjoint | src/memory/heap.cpp:55-84 | live blocks, headers included, do not overlap and lie inside the heap |
| Chunks.TotalIsLength | src/memory/heap.cpp:46-47 | sizes plus 32 bytes for each chunk add up to the heap's length |
| Chunks.Unique | src/memory/heap.cpp:106-126 | the chunk list is determined by the set of live blocks |
| Chunks.FreesCommute | src/memory/heap.cpp:106-126 | two frees in either order give the same list |
| Chunks.FreeUndoesAlloc | src/memory/heap.cpp:55-126 | freeing a block just allocated restores the list exactly, split or not |
| Chunks.RunGood | src/memory/heap.cpp:55-126 | every run of allocations and frees without growth keeps tiling, alignment and no two free neighbours |
| Chunks.HistoryIndependence | src/memory/heap.cpp:55-126 | two runs from one start with the same blocks live in the end have the same chunk list |
| Chunks.AllFreed | src/memory/heap.cpp:46-50 | a run that ends with nothing live ends with the single chunk init made |
| Chunks.FreeEverything | src/memory/heap.cpp:106-126 | freeing all live blocks in any order restores the single chunk init made |
| Boot.Start | src/kernel/main.cpp:100-102 | frames, page tables and heap come up in order on any valid memory map; the managed frames are the usable pages without the bitmap's; with 1029 of them the heap is ready and exactly 1029 are gone |
| Boot.FirstRequest | src/memory/heap.cpp:46-63 | in the fresh heap a request finds nothing if and only if it is more than 4 MiB - 32 and at most 2^64 - 8 |
| Boot.BackBuffer | src/video/framebuffer.cpp:27-28 | the back buffer's allocation page-faults exactly for such sizes of height times pitch |
| Boot.FullHdFaults | src/video/framebuffer.cpp:27-28 | 1080 rows of 7680 bytes do not fit the fresh heap |
| Machine.SavedFrame | src/kernel/interrupt_stub.asm:115-130 | after the CPU's five pushes and the stub's fifteen, the 20 words at rsp are the interrupted context; rsp is on a 16-byte boundary |
| Machine.LoadedFrame | src/kernel/interrupt_stub.asm:140-155 | the pops and iretq load exactly the context a frame holds, whatever the registers were |
| Machine.PopReversesPush | src/kernel/interrupt_stub.asm:116-154 | the pop order is the reverse of the push order |
| Machine.SaveOutside | src/kernel/interrupt_stub.asm:115-130 | saving touches only the 160 bytes below the aligned stack pointer |
| Processes.Kernel.constructor | src/kernel/process.cpp:8-9 | the statics start as an empty ring with pid 0 next |
| Processes.Kernel.Schedule | src/kernel/process.cpp:72-95 | the ring turns by one, the interrupted stack pointer is stored, the states change over; without processes the pointer comes back |
| Processes.Kernel.InterruptStubTimer | src/kernel/interrupt_stub.asm:115-155 | on registers, stack and ring the stub is exactly one timer step of the abstract system; without processes every register comes back; no record is added or lost |
| Processes.Kernel.CreateProcess | src/kernel/process.cpp:19-65 | given its stack, lays the words of the fake frame (ss 0, rsp the stack's top, rflags with bit 9, cs, entry, fifteen zeros, each at its place), links a fresh record in after the current one, and numbers it; the ring stays one cycle without repeats |
| Processes.Kernel.InsertAfterCurrent | src/kernel/process.cpp:57-65 | the ring with the new record second, or alone, still one cycle |
| Processes.Kernel.StartScheduling | src/kernel/process.cpp:97-122 | the current process becomes RUNNING and is loaded from its frame |
| Kmain.NewStackApart | src/kernel/process.cpp:24-29 | a stack block from the heap overlaps no stack that is live, so with the next pid it is all that creation needs |
| Kmain.FreeKeepsStacks | src/memory/heap.cpp:106-126 | freeing any other block leaves every stack live |
| Kmain.Blocks | src/kernel/process.cpp:21-24 | the record has a live block of at least 40 bytes and the stack one of 16384, apart from each other and from every block that was live, stacks and records among them |
| Kmain.RoomBoth | src/memory/heap.cpp:63-83 | from a free tail, creation works if and only if it has 16456 bytes, and takes 16488 |
| Kmain.Spawn | src/kernel/process.cpp:19-70 | creation with its two allocations: it faults, with nothing created, if and only if one would grow the heap, and it does not in the fresh heap; otherwise the new process is added and all stacks are live blocks and apart |
| Kmain.Launch | src/kernel/main.cpp:126-144 | creating processes, starting, and one tick: the CPU is then at the entry of the latest process, every register zero, interrupts enabled, rsp 16 KiB above its stack; from the fresh heap it works if and only if there are at most 254 processes |
| Scheduling.TickTransparent | src/kernel/interrupt_stub.asm:115-155 | a tick changes no process's registers or live stack, the interrupted one's included |
| Scheduling.TickInv | src/kernel/process.cpp:72-95 | a tick keeps stacks apart, waiting frames inside their stacks, and exactly the current process RUNNING |
| Scheduling.CreateFresh | src/kernel/process.cpp:27-47 | a new process has all registers zero, its entry as rip, ss 0, the interrupt flag set, and rsp 16 KiB above its stack block, with nothing on the stack |
| Scheduling.CreateOthers | src/kernel/process.cpp:19-65 | creating a process changes no other process |
| Scheduling.BeginTransparent | src/kernel/process.cpp:97-122 | start_scheduling changes no process and makes exactly the current one RUNNING |
| Scheduling.EarlyTick | src/kernel/process.cpp:72-85 | a tick before start_scheduling, outside the first process's entry, loses a process's state if and only if a process exists |
| Scheduling.EarlyTickAfterCreate | src/kernel/process.cpp:72-85 | after the first create_process such a tick leaves the process without its starting context |
| SchedulerRuns.RunInv | src/kernel/process.cpp:19-122 | in every state of every run from boot, stacks are apart, waiting frames lie in their stacks, and after the start exactly the current process is RUNNING |
| SchedulerRuns.RunRefines | src/kernel/interrupt_stub.asm:115-155 | every event of every run from boot, creation and start included, does to the processes no more than it may do to independent CPUs |
| SchedulerRuns.Resumes | src/kernel/interrupt_stub.asm:115-155 | a process resumes, after any number of other events, with exactly the registers and live stack it was interrupted with |
| SchedulerRuns.Starts | src/kernel/process.cpp:27-50 | a process created before or after the start first executes at its entry, every general register 0, ss 0, the interrupt flag set, rsp 16 KiB above its stack block |
| SchedulerRuns.Waiting | src/kernel/process.cpp:62-87 | a process at distance d executes after exactly d ticks plus one for each process created first, and not before |
| SchedulerRuns.RoundRobin | src/kernel/process.cpp:84-87 | with n processes, the one in front after t ticks is the one at distance t modulo n |
| Blend.BlendExact | src/video/framebuffer.cpp:57-68 | for 0 < alpha < 255 each channel is bg + floor((fg - bg) * alpha / 256), with no borrow or carry between channels, and opacity full |
| Blend.ChannelBetween | src/video/framebuffer.cpp:63-66 | each blended channel lies between background and foreground |
| Scaling.SourceInside | src/video/framebuffer.cpp:143-151 | the product never overflows 32 bits and the source index is inside the image |
| Scaling.SourceMonotone | src/video/framebuffer.cpp:149-151 | source indices never go back |
| Scaling.SourceError | src/video/framebuffer.cpp:143-151 | the index is never above floor(j * size / target), and below it by at most one for each 65536 target columns begun |
| Scaling.SourceWithinOne | src/video/framebuffer.cpp:143-151 | for targets up to 65536 the index is exact or one less |
| Scaling.SourceErrorIs | src/video/framebuffer.cpp:143-151 | the error at target index j is exactly (j * ratio mod 65536 + floor(j * rest / target)) / 65536, rest being what the ratio's division leaves |
| Scaling.SourceExact | src/video/framebuffer.cpp:143-151 | every index is exact when the target divides size * 65536 |
| Scaling.MissesByTwo | src/video/framebuffer.cpp:143-151 | errors of two at targets 65809 and 196608 |
| Scaling.SourceNative | src/video/framebuffer.cpp:143-151 | at native size every index maps to itself |
| Images.ReadsInside | src/video/framebuffer.cpp:120-129 | every pixel read lies inside an image that has the bytes its header announces, for both depths |
| Images.CompleteReadable | src/video/framebuffer.cpp:143-160 | scaled drawing of a complete image with pixels reads inside it, at every target size |
| Images.EmptyReadable | src/video/framebuffer.cpp:143-160 | an image of zero width or height is read inside the file if and only if row 0 up to the last sampled column is there |
| Images.NativeScale | src/video/framebuffer.cpp:114-169 | scaling to native size makes the same sequence of put_pixel_alpha calls as plain drawing, for both depths and row orders |
| Images.NativeScaleBuffer | src/video/framebuffer.cpp:114-169 | so both leave the same back buffer |
| Framebuffers.Framebuffer.PutPixel | src/video/framebuffer.cpp:33-41 | exactly the pixel at y * (pitch / 4) + x changes |
| Framebuffers.Framebuffer.PutPixelAlpha | src/video/framebuffer.cpp:43-69 | off screen or with alpha 0 nothing changes; on screen with alpha 255 the pixel is the colour; else each channel is bg + floor((fg - bg) * alpha / 256) at full opacity; no other pixel changes |
| Framebuffers.Framebuffer.DrawTgaImage | src/video/framebuffer.cpp:114-135 | for any complete file at any position, every pixel of the screen: where the picture covers it, the file's bytes for its row and column (blue, green, red, and alpha at 32 bits), rows from the top or the bottom by bit 5 of byte 17, put over what was there; elsewhere unchanged |
| Framebuffers.Framebuffer.DrawTgaScaled | src/video/framebuffer.cpp:137-169 | the same for scaled drawing at any positive target size, with the row and column that 16.16 arithmetic samples, for any file that has the bytes sampled |
| Pictures.PixelDrawn | src/video/framebuffer.cpp:114-169 | after either drawing, at any position, a covered pixel is the image's colour for its row and column put once over what was there, and every other pixel is unchanged |
| Pictures.NativeIsDrawn | src/video/framebuffer.cpp:114-135 | the calls of plain drawing leave on each pixel what the file's bytes say |
| Pictures.ScaledIsDrawn | src/video/framebuffer.cpp:137-169 | the calls of scaled drawing leave on each pixel what the file's bytes say |
| Pictures.OffsetExact | src/video/framebuffer.cpp:127-159 | at 24 bits the 32-bit byte offset is the pixel's own if and only if 3 * (row * width + column) is below 2^32 |
| Lib.Itoa | src/kernel/lib.cpp:58-76 | the buffer holds the decimal digits in order and a NUL, and nothing after it changes |
| Lib.DecimalParses | src/kernel/lib.cpp:58-76 | the digits parse back to the number |
| Lib.DecimalCanonical | src/kernel/lib.cpp:58-76 | digits only, and no leading zero except for 0 itself |
| Lib.DecimalLength | src/kernel/lib.cpp:58-76 | d digits suffice if and only if the number is below 10 to the d |
| Lib.DecimalOf32Bits | src/kernel/lib.cpp:58-76 | at most 10 digits for a 32-bit number |
| Lib.Memmove | src/kernel/lib.cpp:28-43 | for every overlap the destination gets the original source bytes and no other byte changes |

## Left out

- Pmm.Allocator.Init: the higher-half offset is erased, and a boot loader without a memory map behaves like an empty map; `alloc` and `free` are modelled only once a bitmap was placed, since before that the bitmap pointer is null.
- Vmm.AddressSpace.Map: the lower half only; the boot loader's upper-half tables are opaque words that are shown unchanged. Loading CR3 and flushing the TLB have no effect on the tables.
- Vmm.AddressSpace.ZeroFrame: `memset` of a whole page is done word by word; `Pmm.Allocator.Fill` does the same for the bitmap.
- Heap.KernelHeap.Take: headers are a map from addresses to header records beside the words of memory; that heap addresses behave like words of their own, through the page tables, is proved by Heap.KernelHeap.Store.
- Heap.KernelHeap.Kmalloc: the walk to the last header before the faulting write is not repeated, since it changes nothing; the heap has room to grow below 2^47.
- Heap.KernelHeap.KmallocSavedEnd: growth with too few frames is not described for the variant, since `expand` ignores a failure and the list would then run past the mapped pages.
- Processes.Kernel.CreateProcess: the stack is a parameter, which Kmain.Spawn takes from the heap; the record's fields are those of an object, not words of its block. Pids do not wrap at 2^32.
- Processes.Kernel.InterruptStubTimer: the registers that `schedule` may clobber and the words it leaves below the frame are arbitrary parameters; serial output and the end-of-interrupt byte have no effect. Memory is words by address; frames are 8-byte aligned, so words do not overlap.
- Scheduling.UserStep: boot code and processes compute arbitrarily but do not write into the stacks of others, and preemption inside `kmalloc` or `create_process` is not modelled, since the code has no locking.
- SchedulerRuns.RunRefines: no tick falls between the first `create_process` and `start_scheduling`; Scheduling.EarlyTick says what one does.
- Framebuffers.Framebuffer.DrawTgaScaled: a zero target size divides by zero in the code, and pixels that are not in the file are read past its end; both are excluded. The source row is computed once for each row, as it does not depend on the column.
- Framebuffers.Framebuffer.PutPixelAlpha: a null framebuffer, and buffers of more than 2^32 pixels, where the 32-bit offset would wrap.
- `Framebuffer::init` beyond its allocation, `clear`, `draw_rect`, `update_frontbuffer` and the text writer: loops that add nothing harder.
- `memcpy`, `memcmp` and `itoa_hex`: straight loops.
- Serial port, PIC, PIT, IDT loading, the interrupt dispatcher, keyboard and mouse: hardware plumbing and easy tables.
