# bayos, verified

This project models the parts of the bayos kernel that keep state over unbounded runs, and proves
what they keep. It is checked with `dafny verify dfyconfig.toml`.

| file | what it is about |
|---|---|
| `Words.dfy` | 64-bit arithmetic and the bit trick of `align_up` |
| `HeapModel.dfy`, `HeapInvariants.dfy`, `HeapRuns.dfy` | the kernel heap: first fit, splitting, freeing; what each step and each run keeps |
| `Allocator.dfy` | the free list inside the heap's own memory, as imperative code, proved to do the same |
| `Frames.dfy`, `FrameAllocators.dfy` | the enumeration of usable frames, the bump allocator, the bitmap allocator, the hand-over |
| `PagingModel.dfy`, `FrameBudget.dfy`, `FrameOrder.dfy` | who owns which frame; what mapping costs, when it succeeds, how it fails, what it leaks, and in which order it works |
| `Paging.dfy`, `VirtualMemory.dfy` | mapping pages as imperative code; bytes behind virtual addresses |
| `Loader.dfy`, `ElfFormat.dfy` | `add_user_process`: segments, stack, first context; the bytes of an ELF image and what is read from them |
| `Kernel.dfy` | heap initialization, the allocation system call, and the boot sequence over all of them |
| `Scheduler.dfy` | the round-robin scheduler and its waiting times |
| `ContextSwitch.dfy`, `ContextRuns.dfy`, `FirstSwitch.dfy` | the timer interrupt, runs of the machine, and the first switch to the user process |
| `Terminal.dfy`, `Framebuffer.dfy` | the text grid, what it shows of any text, and the glyph writer that draws it |
| `Pipe.dfy` | the input pipe between the keyboard interrupt and a spinning reader |

Code that changes state step by step is modelled by classes and methods with loops; each method is
tied to a function of the old state, and the properties are proved about that function. The build
profile is the development one, so arithmetic that leaves 64 bits panics.

The main results:

- **Heap.** The memory of the heap always holds a null-terminated acyclic list of exactly the free
  regions, whatever clients write into their blocks. On every legal run each heap address lies in
  exactly one free, live or lost piece; live blocks are aligned, large enough and disjoint; bytes
  are conserved; pieces only get finer; the list is bounded. Allocation takes the earliest region
  that fits; with alignments up to 2^31 it answers null exactly when none does, and with larger ones
  it panics unless the list is empty. A block that is released and asked for again is the same block.
- **Frames.** On every outcome of the boot sequence no usable frame backs two pages, two tables, or
  a page and a table. Whether heap initialization, loading and the allocation calls succeed is
  decided by a condition on what the bootloader left: the page ranges are disjoint and unmapped, and
  the free frames pay for every page and every lacking page table. The number of frames leaked is
  stated for every outcome: none on success, at most one on failure. The hand-over panics exactly
  when a bump allocation has failed, and otherwise the two allocators together deliver the plain
  enumeration, region by region and frame by frame; pages are mapped in order, up to the first that
  fails, to frames in the order of the enumeration.
- **Loader.** When loading succeeds every segment holds its file bytes and then zeros, nothing
  mapped before has changed, and of the stack only the fields of the first context are stored. The
  segments are those of the program headers that stand, in their packed layout, in the image. The
  process starts in ring 3 at the entry point of its image, with interrupts on.
- **Scheduling.** Every process resumes with exactly the registers and interrupt frame it was
  interrupted with, over every run. A process at cyclic distance d is dispatched within d + k ticks
  when k processes are added meanwhile.
- **Screen and pipe.** For text of any length, with newlines and carriage returns, the frame buffer
  shows in each cell the last character placed in it since the lines last ran out, and black
  elsewhere; a completed read holds the oldest unread bytes.

What turned out not to hold without a condition:

- `align_up` leaves the 64-bit range for every heap address exactly when the alignment is above
  2^31, so `alloc` then panics as soon as the free list is not empty (`AlignUpInHeap`, `AllocOutcome`).
- The frame enumeration yields a frame twice exactly when the frame spans of two usable regions
  meet, which disjoint regions with unaligned starts can do (`EnumerationDistinct`,
  `UnalignedRegionsShareAFrame`).
- An image loads exactly when the page ranges of its segments and the stack are disjoint and
  unmapped and the free frames pay for them (`LoadOutcome`); so two segments that share no byte but
  one page never load (`SharedPageNeverLoads`).
- A failed mapping can leak a frame: the one drawn for the page is dropped when `map_to` fails. One
  leaks when a page was mapped already; when the frames run out one leaks if the draw that fails is
  for a table, and none if it is for a page (`MapRangesLeak`, and `KernelMain` for every outcome).
- A user process starts with zeroed registers exactly when bytes 8 to 127 of the frame drawn for its
  stack page 0x1fc were zero before loading (`UserProcessStarts`); a machine on which they are not is
  `DirtyRegisters`, and `FirstTick` takes it to the first switch. Only a process made by `add_process` always starts with zeroed ones.

## Model

| member | source | states |
|---|---|---|
| Words.AlignUpCorrect | kernel/src/allocator.rs:44-46 | the bit trick rounds up to the least multiple exactly when the sum fits 64 bits, else it panics |
| Words.AlignUpWrappingCorrect | kernel/src/allocator.rs:44-46 | without overflow checks it still rounds up while the sum is a word and yields zero once it wraps |
| HeapInvariants.AlignUpInHeap | kernel/src/allocator.rs:11-12 | for every heap address: no overflow iff the alignment is at most 2^31, and then the least multiple not below it |
| HeapModel.LayoutFacts | kernel/src/allocator.rs:145-152 | the padded size is the size rounded up to the effective alignment, at least a node, a multiple of 8, and below 2^63 |
| HeapModel.FitMeaning | kernel/src/allocator.rs:129-143 | a region fits iff from its first aligned address there is room and the rest is nothing or can hold a node |
| HeapInvariants.FirstFitMeaning | kernel/src/allocator.rs:113-127 | the search finds the earliest region that fits, and none iff no region fits |
| HeapInvariants.AllocOutcome | kernel/src/allocator.rs:156-174 | panic iff alignment above 2^31 and the list is not empty; otherwise null iff no region fits; failure changes nothing |
| HeapInvariants.AllocTakesFirstFit | kernel/src/allocator.rs:156-174 | success consumes the earliest fitting region, keeps the others in order and pushes the tail in front |
| HeapInvariants.AllocKeepsInv | kernel/src/allocator.rs:156-174 | allocation keeps the partition of the heap and the shape of all pieces |
| HeapInvariants.DeallocKeepsInv | kernel/src/allocator.rs:176-182 | release keeps them too |
| HeapInvariants.AllocConservesBytes | kernel/src/allocator.rs:129-174 | the byte total is kept and the bytes lost are exactly the distance to the aligned address, less than the alignment |
| HeapRuns.RunKeeps | kernel/src/allocator.rs:94-183 | every legal run keeps the partition and the byte total, and only refines pieces |
| HeapRuns.LiveBlocksAreSafe | kernel/src/allocator.rs:94-183 | after every legal run live blocks are in the heap, aligned, large enough, and disjoint from every other piece |
| HeapRuns.BytesConserved | kernel/src/allocator.rs:129-182 | free + live + lost bytes equal the heap size after every legal run |
| HeapRuns.NothingLost | kernel/src/allocator.rs:129-174 | runs whose layouts are aligned to at most 8 lose no byte |
| HeapRuns.PiecesNeverGrow | kernel/src/allocator.rs:100-143 | later free and live pieces lie inside earlier ones, so the largest never grows |
| HeapRuns.FreeListBounded | kernel/src/allocator.rs:113-127 | the free list has at most heap size / 16 nodes, which bounds the search loop |
| HeapRuns.ReleaseThenAlloc | kernel/src/allocator.rs:156-182 | after any live block is released, an allocation with its layout returns its address and leaves the free list and the lost pieces as they were |
| HeapRuns.AllocReleaseAlloc | kernel/src/allocator.rs:105-109 | allocating, releasing and allocating again with one layout returns one address |
| Allocator.ListAcyclic | kernel/src/allocator.rs:64-111 | following next visits each free region once, at distinct addresses, and reaches null |
| Allocator.ClientWritesKeepList | kernel/src/allocator.rs:64-127 | writes into live blocks leave the list in memory unchanged |
| Allocator.LinkedListAllocator.AddFreeRegion | kernel/src/allocator.rs:100-111 | the memory afterwards holds the list with the region in front, and no other word has changed |
| Allocator.LinkedListAllocator.Walk | kernel/src/allocator.rs:113-127 | the walk over raw nodes ends at the first region that does not merely misfit, with its predecessor |
| Allocator.LinkedListAllocator.FindRegion | kernel/src/allocator.rs:113-127 | the pointer walk unlinks exactly the first-fit region; otherwise memory is untouched |
| Allocator.LinkedListAllocator.Alloc | kernel/src/allocator.rs:156-174 | raw memory refines the abstract allocation, and no word of a live block changes |
| Allocator.LinkedListAllocator.Dealloc | kernel/src/allocator.rs:176-182 | the free list is the released region followed by the old list, exactly this block is gone from the live ones, both assertions of add_free_region hold, other live blocks are untouched |
| Allocator.LinkedListAllocator.Init | kernel/src/allocator.rs:94-98 | the whole heap becomes one free region |
| Frames.EnumerationDistinct | kernel/src/memory.rs:60-66 | no frame is enumerated twice iff the frame spans of the usable regions are pairwise disjoint |
| Frames.AlignedRegionsApart | kernel/src/memory.rs:60-66 | disjoint regions with page-aligned starts are enumerated without duplicates |
| Frames.UnalignedRegionsShareAFrame | kernel/src/memory.rs:60-66 | a concrete memory map whose enumeration repeats a frame |
| Frames.FrameAt | kernel/src/memory.rs:60-66 | the k-th frame of a region comes after all frames of the regions before it and has number start / 4096 + k |
| Frames.AscendingEnumeration | kernel/src/memory.rs:60-66 | ascending page-aligned regions are enumerated in ascending frame numbers |
| Frames.LowestFreeIsLeast | kernel/src/memory.rs:114-123 | in an ascending enumeration the frame delivered has the least free number |
| FrameAllocators.IndexInvertsLookup | kernel/src/memory.rs:126-133 | the index search of deallocation inverts the lookup of allocation |
| FrameAllocators.BootInfoFrameAllocator.AllocateFrame | kernel/src/memory.rs:69-75 | delivers the next element of the enumeration, the lowest frame not handed out |
| FrameAllocators.BitmapAllocator.Init | kernel/src/memory.rs:89-103 | panics iff more frames were requested than exist, else marks exactly the frames handed out |
| FrameAllocators.BitmapAllocator.AllocateFrame | kernel/src/memory.rs:114-123 | returns the frame of the lowest clear bit and sets it, fails iff all are set; without duplicates this is the lowest frame not held |
| FrameAllocators.BitmapAllocator.DeallocateFrame | kernel/src/memory.rs:125-134 | clears the first bit of this frame; panics iff it is not in the memory map; without duplicates exactly this frame is freed |
| FrameAllocators.RunOnBitmap | kernel/src/memory.rs:105-134 | over every run each allocation yields the frame of the lowest clear bit; without duplicates the set bits are exactly the frames held and it is the lowest free one |
| FrameAllocators.BitsAreHeld | kernel/src/memory.rs:105-134 | without duplicates the bits after any run are the frames a client holds by its own books |
| FrameAllocators.BumpThenBitmap | kernel/src/memory.rs:60-123 | bump allocations, hand-over and bitmap allocations deliver the plain enumeration, in ascending numbers when the regions ascend; the hand-over panics iff one failed |
| FrameBudget.MapToCost | kernel/src/allocator.rs:34 | mapping a page succeeds iff the free frames pay for the lacking tables and it is not mapped; each failure has its exact condition |
| PagingModel.MapToKeeps | kernel/src/allocator.rs:34 | mapping a page draws at most three frames, all for tables, keeps ownership and all older mappings |
| FrameBudget.MapPagesExact | kernel/src/sched.rs:123-135 | for every sequence of pages the mapping loop comes to the verdict computed from costs and freshness |
| FrameBudget.MapRangesExact | kernel/src/sched.rs:113-174 | several ranges are mapped iff disjoint, unmapped and affordable; which failure otherwise, also iff |
| FrameBudget.MapRangesLeak | kernel/src/sched.rs:123-135 | how many frames a mapping loop leaks on every outcome: none, or the one drawn for the page that failed |
| PagingModel.MapRangeOutcome | kernel/src/sched.rs:123-135 | the mapping loop: success, page mapped already, frames exhausted, and what each means |
| PagingModel.MapRangeOwned | kernel/src/sched.rs:123-135 | the loop keeps frame ownership and all older mappings, and leaks no frame when it succeeds |
| PagingModel.MapRangesNested | kernel/src/allocator.rs:29-35 | mapping keeps the tree of tables: 512 entries each, an inner table only within its outer one, a mapped page only in its innermost one |
| FrameOrder.PagesInOrder | kernel/src/allocator.rs:29-35 | the loop maps its pages in order up to the first that fails, and a page gets a frame earlier in the enumeration than every later page |
| FrameOrder.RangesInOrder | kernel/src/sched.rs:113-174 | the same over all ranges of the image and the stack in turn |
| FrameOrder.PageAt | kernel/src/sched.rs:115-123 | page k of a range comes after the pages of the ranges before it and has number first + k |
| Paging.Mapper.MapRange | kernel/src/allocator.rs:29-35 | the loop over pages keeps the books as modelled and touches only frames it draws |
| VirtualMemory.CopyNonoverlapping | kernel/src/sched.rs:138-142 | the destination holds what the source held; no other mapped byte changes |
| VirtualMemory.PageIsFrame | kernel/src/sched.rs:137-150 | byte k seen through a page is byte k of its frame |
| ElfFormat.ProgramDecoded | kernel/src/elf.rs:19-30 | where the bytes of a packed program header stand, the loader reads its type, offset, address and both sizes |
| ElfFormat.ImageDecoded | kernel/src/elf.rs:1-30 | from the bytes of an image the loader reads its entry point and exactly its program headers in order |
| ElfFormat.ImageLoaded | kernel/src/sched.rs:113-152 | in terms of the headers: every byte of a PT_LOAD segment is its file byte below p_filesz and zero up to p_memsz |
| ElfFormat.SegmentPages | kernel/src/sched.rs:115-121 | the pages mapped for a segment are exactly those that hold one of its bytes |
| ElfFormat.MappingOrder | kernel/src/sched.rs:113-174 | PT_LOAD segments are mapped in the order of their headers, then the five pages below 0x200000 |
| Words.FlagIsSet | kernel/src/sched.rs:176 | the stored flags have bit 9 set and every other bit as it was |
| Loader.LoadSegment | kernel/src/sched.rs:114-152 | on success the segment holds its file bytes and then zeros; all older bytes are unchanged, and so are all frames not newly drawn |
| Loader.SetUpStack | kernel/src/sched.rs:176-189 | the fields of the first context are stored, the stored flags have interrupts on, and no other byte changes |
| Loader.AddUserProcess | kernel/src/sched.rs:96-205 | on success all segments and the first context are in place, every other byte of the stack is what its frame held before, and a READY process is added; on any outcome ownership and older bytes are kept |
| Loader.LoadOutcome | kernel/src/sched.rs:113-174 | loading succeeds iff the page ranges of segments and stack are disjoint and unmapped and the free frames pay for their pages and lacking tables; exact conditions of both failures |
| Loader.SharedPageNeverLoads | kernel/src/sched.rs:115-135 | two concrete segments on one page never load, and with five frames free PageAlreadyMapped is reported |
| Kernel.InitHeap | kernel/src/allocator.rs:17-42 | all heap pages get frames of their own, then the heap is one free region |
| Kernel.HeapPages | kernel/src/allocator.rs:21-27 | the pages mapped for the heap are exactly the 512 that hold one of its addresses |
| Kernel.AnonAllocate | kernel/src/syscall.rs:116-152 | one call of the system call does what the books say and moves the bump pointer of the current process |
| Kernel.AnonStepExact | kernel/src/syscall.rs:116-152 | with a free arena a call succeeds iff the block is addressable and the free frames pay for it |
| Kernel.AnonStepKeeps | kernel/src/syscall.rs:116-152 | a successful call returns the page-aligned bump pointer, maps exactly ceil(size/4096) fresh pages and moves past them |
| Kernel.AnonCalls | kernel/src/syscall.rs:116-152 | the calls of the user process, with ticks and new processes in between, come to what the calls alone come to |
| Kernel.AnonBlocksDisjoint | kernel/src/syscall.rs:121-150 | over all calls the blocks are page-aligned and disjoint |
| Kernel.AnonBlockAt | kernel/src/syscall.rs:121-150 | each block begins exactly where the pages of the blocks before it end |
| Kernel.AnonBlocksMapped | kernel/src/syscall.rs:135-146 | over all calls every page of every block is mapped and was not before |
| Kernel.AnonRunOwned | kernel/src/syscall.rs:135-146 | over all calls ownership is kept and nothing leaks |
| Kernel.AnonRunEnds | kernel/src/syscall.rs:135-146 | a run of calls succeeds iff all blocks are addressable and the free frames pay for all their pages and lacking tables |
| Kernel.HandOver | kernel/src/main.rs:94-96 | after a successful heap initialization the switch of allocators cannot panic and keeps the books |
| Kernel.KernelMain | kernel/src/main.rs:58-106 | from the bootloader through heap, hand-over, loading and all allocation calls: the exact condition of every outcome; on all of them no frame with two owners, older bytes kept, leaks counted; on success image in place, none leaked, blocks disjoint and at exact addresses from 0x100000000 on |
| Scheduler.ScheduleChoosesNearest | kernel/src/sched.rs:236-247 | the process chosen is READY and at the least cyclic distance, at most one round away |
| Scheduler.ProcessList.Schedule | kernel/src/sched.rs:224-248 | saves the stack pointer, passes on the processor, ends within one round, returns the chosen stack pointer |
| Scheduler.TickAdvances | kernel/src/sched.rs:224-248 | in reachable states the next process in the list runs, and only the interrupted one gets a new stack pointer |
| Scheduler.OneRunning | kernel/src/sched.rs:42-58 | in every state reachable from boot exactly the current process is RUNNING |
| Scheduler.StackPointerKept | kernel/src/sched.rs:228-247 | in every state reachable from boot each process has the stack pointer last saved for it, or its initial one |
| Scheduler.BoundedWaiting | kernel/src/sched.rs:236-245 | at distance d with k additions a process is dispatched within d + k ticks |
| Scheduler.EachOncePerRound | kernel/src/sched.rs:236-245 | every window of as many ticks as processes dispatches each exactly once |
| ContextSwitch.Cpu.TimerHandler | kernel/src/int.rs:342-388 | the interrupted context is stored below the stack top and the processor continues with the one stored at the stack pointer returned |
| ContextSwitch.StackTopAligned | kernel/src/int.rs:342-388 | from ring 3 the context is stored below the privilege stack, from ring 0 below the highest 16-byte boundary not above the stack pointer |
| ContextSwitch.Cpu.AddProcess | kernel/src/sched.rs:60-91 | the new stack holds zeroed registers and a frame for the entry point with kernel selectors, interrupts on, and the stack top |
| ContextRuns.StepKeepsInv | kernel/src/int.rs:342-388 | every step keeps: each process not running has its context in memory of its own, with room to be interrupted |
| ContextRuns.ContextTransparency | kernel/src/int.rs:342-388 | over every run a process resumes with exactly the context it was interrupted with |
| ContextRuns.AddProcessIsSpawn | kernel/src/sched.rs:60-91 | what add_process writes meets the conditions of a new process joining |
| ContextRuns.KernelProcessStarts | kernel/src/sched.rs:67-90 | a process made by add_process first runs at its entry in ring 0 with zeroed registers, interrupts on, and its stack pointer at the top |
| FirstSwitch.AddUserProcessIsSpawn | kernel/src/sched.rs:96-205 | what add_user_process promises meets the conditions of a new process joining, which owns its new pages and the privilege stack |
| FirstSwitch.UserProcessStarts | kernel/src/sched.rs:176-201 | the user process first runs at the entry point of its image, in ring 3, with interrupts on and its stack pointer at 0x200000; its registers are what the frame behind stack page 0x1fc held before loading, zero iff its bytes 8 to 127 were |
| FirstSwitch.ThreadBlock | kernel/src/sched.rs:180-188 | the word at 0x1fc000 points to itself |
| FirstSwitch.DirtyRegisters | kernel/src/sched.rs:178-201 | a concrete machine on which loading succeeds and these registers are not zero |
| FirstSwitch.FirstTick | kernel/src/int.rs:342-388 | on this machine the first timer tick resumes the user process with registers that are not zero |
| Terminal.ReadingOrder | kernel/src/framebuffer.rs:124-141 | printable text that fits the screen stands in reading order |
| Terminal.ScreenShown | kernel/src/framebuffer.rs:124-141 | for text of any length with control characters, each cell shows the last character placed in it since the lines last ran out, counting lines and columns of the text |
| Terminal.StandsAlone | kernel/src/framebuffer.rs:135-137 | a character that finds no line left stands alone in the first cell |
| Terminal.OneCharacter | kernel/src/framebuffer.rs:135-137 | on a screen too low for a second line only the last printable character is shown |
| Framebuffer.PictureUnique | kernel/src/framebuffer.rs:145-172 | the grid determines every byte of the buffer |
| Framebuffer.GlyphInPicture | kernel/src/framebuffer.rs:145-168 | the byte of pixel (x, y) of a cell is the colour of row y, column x of the glyph of its character |
| Framebuffer.ColorChannels | kernel/src/framebuffer.rs:156-159 | full red and green and half blue wherever the format keeps them; grey scale draws only intensities above 200 |
| Framebuffer.ColumnTest | kernel/src/framebuffer.rs:129-132 | the pixel test wraps exactly at the last column of the grid |
| Framebuffer.CellsOnScreen | kernel/src/framebuffer.rs:129-137 | the cells of the grid are exactly those that pass both pixel tests |
| Framebuffer.FrameBufferWriter.WritePixel | kernel/src/framebuffer.rs:154-172 | exactly the bytes of this pixel change, at their address and inside the buffer, to its colour |
| Framebuffer.FrameBufferWriter.WriteRenderedChar | kernel/src/framebuffer.rs:145-152 | exactly the bytes of the glyph's rectangle change, to the glyph |
| Framebuffer.FrameBufferWriter.WriteChar | kernel/src/framebuffer.rs:124-141 | the buffer shows the grid with the character typed, which is wrapped, or alone on a cleared screen |
| Framebuffer.FrameBufferWriter.WriteStr | kernel/src/framebuffer.rs:178-185 | after any strings the buffer shows the screen of everything written: in each cell the last character placed in it since the lines last ran out, black elsewhere |
| Pipe.Pipe.Write | kernel/src/vfs/pipe.rs:35-41 | appends all bytes, or fills the queue and panics iff they do not fit |
| Pipe.Pipe.Read | kernel/src/vfs/pipe.rs:18-33 | the spinning read, interleaved with interrupt writes, fills the buffer as modelled and nothing beyond |
| Pipe.BytesConserved | kernel/src/vfs/pipe.rs:18-41 | without overflow, bytes read then bytes queued are the bytes written |
| Pipe.CompletedReadIsOldest | kernel/src/vfs/pipe.rs:18-33 | a completed read holds the oldest unread bytes in order |
| Pipe.ReadCompletes | kernel/src/vfs/pipe.rs:22-31 | once enough bytes have been delivered, as many attempts as bytes are lacking complete the read |

## Left out

- Allocator.LinkedListAllocator: the words of the heap are an array of their own; that they live in the frames mapped by heap initialization is not modelled. A node keeps its size in the first word and its next pointer in the second.
- Loader.AddUserProcess: segments in the upper half of the address space or reaching into the last page of the lower half, with addresses that overflow, or with an unreadable source are outside its precondition, and so is an entry point outside the lower half; `VirtAddr::new` or the page range panics on them or the copy faults, and an entry point in the upper half, which the code accepts, is not covered.
- Paging.Mapper: huge pages, page flags and the encoding of table entries are not modelled, nor is the window through which the bootloader maps all physical memory; `map_to` is a partial map with three levels of tables below the root.
- Kernel.KernelMain: APIC, ACPI, GDT and logging between the steps; one user process, as boot adds only one. That the bootloader leaves the arena free and uses no usable frame itself, and that no segment reaches into the arena, are preconditions.
- Kernel.AnonAllocate: a block whose page range would be walked over the last page of the lower half maps the pages before it and then panics; the page iterator itself is not modelled. The store of the block address through the user's pointer is the return value here.
- Scheduler.ProcessList.Schedule: the branch for a DEAD current process, which takes a lock it already holds and does not return.
- ContextSwitch.Cpu.TimerHandler: memory is in aligned words; the process list itself is kept apart from it; the functions called may use 0x800 bytes of stack. The fifteen pushes and pops are grouped by five.
- ContextSwitch.Cpu.AddProcess: the allocation of the stack by the heap is a parameter; that heap blocks are disjoint and aligned to 8 is LiveBlocksAreSafe.
- FirstSwitch.UserProcessStarts: the word memory of the machine and the bytes behind the page map are tied by `Views`; stores of the code between ticks are to words only.
- ContextRuns.Trace: that no process touches memory of another, and that each has room on its stack when interrupted, is a condition on the code between ticks.
- Framebuffer.FrameBufferWriter: unsupported pixel formats, which panic at the first pixel; glyph rasters are a parameter of fixed width and sixteen rows.
- Pipe.Pipe: the lock-free queue is a bounded sequence; each push and pop is one step.
- HeapModel.ValidLayout: layouts that cannot be padded within isize, on which `size_align` panics.
- Spinlocks and interrupt masking: each operation is one atomic step on one processor.
- The system call entry, keyboard decoding, build scripts and the compiler patches.
