# A verified model of ferr_os

ferr_os is a small x86-64 kernel with a UEFI loader. This project models the parts of it that keep
state under hard invariants, and proves what those invariants promise over whole runs:

- **Virtual memory**: the address type, the bump frame allocator, four-level page tables kept as
  words in the same byte memory as everything else, the mapper and its wrappers, both table
  walkers, the loader's ELF mapper with its replaced boundary pages, the linear window and the heap
  pages. (`collections`, `bits`, `memory`, `addr`, `frame_allocator`, `page_table`, `mapper`,
  `paging_runs`, `paging_code`, `kernel_image`, `kernel_steps`, `kernel_promise`, `kernel_pages`,
  `map_kernel`, `address_space`)
- **Executor, timer, keyboard**: a machine of atomic steps, with interrupts between any two of them
  while interrupts are on; safety, timing and progress. (`tasks`, `tasks_safety`, `tasks_timing`,
  `tasks_progress`, `timer_manager`)
- **Block heap**: intrusive free lists inside the memory they manage, over a fallback heap known by
  contract. (`block_heap`, `block_heap_runs`)
- **CRC-32 and GPT**: table against bit-serial definition and polynomial division, burst detection,
  and the parser against the bytes of the disk. (`crc`, `crc_bursts`, `crc_polynomial`, `gpt`,
  `gpt_layout`, `gpt_parse`)
- **Framebuffer terminal**: the character buffer against an unbounded terminal, and the pixels
  against the characters. (`terminal`, `framebuffer`, `logger`)
- **ATA PIO driver**: against a fault-free adapter with two-deep registers. (`ata_device`, `ide`,
  `ide_driver`)

Code that changes things in place is a class or a method with loops, proved against a function on
values; the statements about whole runs are lemmas about those functions. A panic (`expect`,
`unwrap`, an index out of range) is an outcome that ends the run. Integers are unbounded and every
wrap-around that matters is written out; the kernel is built in release mode, where additions wrap.

Eight promises do not hold as one would first state them. For each there is a counterexample and
the exact condition under which the code keeps it: the ELF loader (`SharedEndPageLosesZeros`,
`MeaningPreservedIffGapsAreZero`), the mapped address (`HighAddressIsLost`, `MappedToPhysIffItFits`),
the linear window, which should show every frame that can be allocated (`LastFrameStaysOutside`,
`HigherRegionStaysOutside`, `LoaderWindowShowsAllExactly`), the checksum of the partition array
(`ShortArrayIsIgnored`, `ChecksumIsWholeExactly`), the enumeration of its entries
(`OneByteEntriesAreMissed`, `EntriesVisitedExactly`), the logger's buffer (`NoRows`, `TooFewRows`,
`NeverFailsExactly`), the NUL character on the screen (`SolidIsNotBlank`, `WriteChar`), and the
driver's range test (`CheckPassesBeyondTheEnd`, `CheckIsExactUnlessItWraps`).

## Model

| member | source | states |
|---|---|---|
| `VirtualAddress.NewSignExtends` | shared_lib/src/addr.rs:17-27 | the constructor copies bit 47 into all bits above and keeps the 48 low bits, so its result is canonical |
| `VirtualAddress.NewCheckedMeaning` | shared_lib/src/addr.rs:30-37 | the checked constructor succeeds exactly on canonical addresses and on those below 2^48, and then returns what the plain one does |
| `VirtualAddress.PageOffsetMeaning` | shared_lib/src/addr.rs:77-79 | the masked page offset is the remainder by the page size |
| `VirtualAddress.IndexDigits` | shared_lib/src/addr.rs:57-75 | the four shifted and masked indices are the base-512 digits of the page number |
| `VirtualAddress.IndicesReassemble` | shared_lib/src/addr.rs:17-79 | round trip: the four indices and the page offset of a canonical address, put together by the constructor, are that address |
| `VirtualAddress.DistinctPagesDistinctPaths` | shared_lib/src/addr.rs:57-75 | two canonical pages with the same four indices are the same page |
| `VirtualAddress.AlignDownMeaning` | shared_lib/src/page_table.rs:265-271 | both align-down functions clear exactly the page offset, and the first keeps an address canonical |
| `FrameAllocation.InitAllocator` | loader/src/main.rs:152-178 | panics exactly on more than 256 descriptors or one of unknown type that does not start at zero; else the regions are the descriptors in order, free exactly for the six usable types not at address zero |
| `FrameAllocation.TypesConverted` | loader/src/main.rs:49-67 | which firmware types become free, reserved, ACPI or PAL memory, class by class |
| `FrameAllocation.FreeFrameComesFromFirmware` | loader/src/main.rs:49-67 | a frame is usable if and only if a descriptor of one of the six named types, not starting at zero, contains it |
| `FrameAllocation.UsableFramesExact` | shared_lib/src/frame_allocator.rs:69-81 | the iterator pipeline yields exactly the frames of the free regions |
| `FrameAllocation.UsableFramesDistinct` | shared_lib/src/frame_allocator.rs:69-81 | with disjoint aligned regions no frame is listed twice and all are aligned |
| `FrameAllocation.FramesAscend` | shared_lib/src/frame_allocator.rs:69-81 | in a map sorted by address the frames come in strictly ascending order |
| `FrameAllocation.FrameAllocator.AllocateFrame` | shared_lib/src/frame_allocator.rs:83-87 | hands out a frame of a free region that was not handed out before, the next in the list; fails exactly when every free frame has been handed out; the counter advances either way |
| `FrameAllocation.HandOver` | loader/src/main.rs:465-469 | a second allocator started at the counter of the first continues its sequence of answers |
| `FrameAllocation.ExhaustedForGood` | shared_lib/src/frame_allocator.rs:83-87 | after one failed allocation every later one fails |
| `FrameAllocation.NoFrameHandedOutTwice` | shared_lib/src/frame_allocator.rs:61-88 | over any number of loader and kernel allocations the frames obtained are a prefix of the free frames, the kernel's the suffix the loader left, all distinct, none zero, each from a descriptor of a free type, and exhaustion is permanent |
| `PageTables.EntryBitOperations` | shared_lib/src/page_table.rs:21-40 | presence, address and the word stored for an entry are the bit operations of the source |
| `PageTables.EntryRoundTrip` | shared_lib/src/page_table.rs:21-40 | an aligned address stored in an entry reads back as its low 52 bits, and the entry is present |
| `PageTables.HighAddressIsLost` | shared_lib/src/page_table.rs:38-40 | the aligned address 2^52 stored in an entry reads back as zero |
| `PageTables.WalkAfterLink` | shared_lib/src/page_table.rs:147-158 | linking a cleared table changes no complete walk |
| `PageTables.ShapeAfterLink` | shared_lib/src/page_table.rs:147-158 | linking a fresh cleared table keeps the tables a tree, with the new one at its place |
| `PageTables.WalkAfterSet` | shared_lib/src/page_table.rs:202-220 | setting a last-level entry changes exactly the one complete walk that ends there |
| `PageTables.ShapeAfterSet` | shared_lib/src/page_table.rs:202-220 | setting a last-level entry keeps the tables a tree |
| `Mapper.CreateKeepsInv` | shared_lib/src/page_table.rs:147-158 | create_next_table keeps the invariant of the tables, changes no translation, touches only table frames and takes frames in order |
| `Mapper.DescendKeepsInv` | shared_lib/src/page_table.rs:181-199 | so do the three creation steps together, also when they stop for lack of frames |
| `Mapper.MapPathMeaning` | shared_lib/src/page_table.rs:169-221 | the mapping of one page by its four indices: invariant kept, only that page moves, the answer is the one the old translation and the mode call for |
| `Mapper.MapAddressMeaning` | shared_lib/src/page_table.rs:169-221 | the whole of map_address_impl, alignment errors included: after success the page translates to the address, every other page as before; after an error no translation changed even if tables were created; a panic means frames ran out |
| `Mapper.RefusedOnlyIf` | shared_lib/src/page_table.rs:169-221 | a request fails only if an address is not aligned, frames ran out, or it insists on a free page and the page is mapped |
| `Mapper.MappedToPhysIffItFits` | shared_lib/src/page_table.rs:171-177 | after success the page translates to the address given exactly if that is below 2^52 |
| `PagingRuns.NoTableAliasing` | shared_lib/src/page_table.rs:147-158 | two walks of at most three steps that reach the same table are the same walk, so a table has one level |
| `PagingRuns.OneReferencePerTable` | shared_lib/src/page_table.rs:147-158 | each table but the root hangs on exactly one present entry, and none points to the root |
| `PagingRuns.FreshRoot` | loader/src/main.rs:428-433 | a freshly allocated root table represents the empty map of pages |
| `PagingRuns.StepRepresents` | shared_lib/src/page_table.rs:169-221 | a successful request changes the represented map at its page alone, to the low 52 bits of the address; any other answer leaves it unchanged |
| `PagingRuns.RunRefinesPageMap` | shared_lib/src/page_table.rs:147-263 | any run of map and remap requests answers as the run on a finite map from page to frame, up to a panic, and at its end every canonical page translates as that map says |
| `PagingRuns.RunFromEmptyTable` | shared_lib/src/page_table.rs:147-263 | the same from a freshly allocated root on, starting with the empty map; at the end no frame is a table twice |
| `PagingCode.Machine.Clear` | shared_lib/src/page_table.rs:124-128 | the loop over the entries leaves the frame all zero and the rest of memory alone |
| `PagingCode.Machine.CopyBytes` | loader/src/main.rs:252-256 | the byte loops, upward or downward as the ranges overlap, leave the old source bytes in the target range and every other byte as it was |
| `PagingCode.Machine.WriteZeros` | loader/src/main.rs:258-262 | the byte loop leaves zeros in the range and every other byte as it was |
| `PagingCode.AllocatePageTable` | shared_lib/src/frame_allocator.rs:90-101 | takes the next frame, clears it through the window, and is the allocation the mapper assumes |
| `PagingCode.NextTable` | shared_lib/src/page_table.rs:147-158 | create_next_table on an entry behind a pointer, with or without the window offset |
| `PagingCode.CreateTables` | shared_lib/src/page_table.rs:181-199 | the three nested creation steps |
| `PagingCode.FillEntry` | shared_lib/src/page_table.rs:199-220 | the last-level entry: already mapped, refused, remapped or new |
| `PagingCode.MapAddressImpl` | shared_lib/src/page_table.rs:169-221 | the in-place code has exactly the effect and the answer of the mapper function |
| `PagingCode.MapPage` | shared_lib/src/page_table.rs:223-226 | maps in place without an offset and refuses a page that is mapped elsewhere |
| `PagingCode.RemapPage` | shared_lib/src/page_table.rs:228-231 | the same, moving such a page |
| `PagingCode.MapPageWithOffset` | shared_lib/src/page_table.rs:233-236 | the same through the linear window |
| `PagingCode.TranslateAddrInner` | src/memory.rs:26-51 | the looped walker returns the translation plus the page offset, or none |
| `PagingCode.WalkersAgree` | shared_lib/src/page_table.rs:238-263 | the unrolled walker is the four-step walk on every memory, so both walkers agree up to the page offset |
| `KernelSteps.MapFilePage` | loader/src/main.rs:206-217 | mapping and recording a page of the file keeps the loader's invariant and everything already in place, and moves no other page |
| `KernelSteps.AddZeroPage` | loader/src/main.rs:273-287 | a fresh page mapped and cleared reads zero, disturbs nothing and moves no other page |
| `KernelSteps.CutKeepsK` | loader/src/main.rs:240-262 | replacing every recorded page of a file page by one copied and zero-filled frame keeps the loader's invariant and every page that is not recorded |
| `KernelPromise.FileKeptAfterCut` | loader/src/main.rs:240-262 | replacing a boundary page spares the file bytes of every segment that ends no later |
| `KernelPromise.FinalByte` | loader/src/main.rs:186-296 | what each byte of each loadable segment finally reads through the tables |
| `KernelPromise.MeaningPreservedIffGapsAreZero` | loader/src/main.rs:231-289 | those bytes are what the ELF file defines exactly if every file byte that a later segment lays over an earlier segment's zero part, in a page where both end, is zero |
| `KernelPromise.DistinctEndPagesSuffice` | loader/src/main.rs:239-263 | in particular if no two segments with zero bytes to follow end in one file page |
| `KernelPromise.SharedEndPageLosesZeros` | loader/src/main.rs:243-248 | a file that meets all demands of the loader, two segments in ascending order that end in one file page: its gaps are not zero and a zero byte is lost, because the recorded frame is not updated |
| `KernelPages.OtherSegmentStaysFree` | loader/src/main.rs:191-293 | loading one segment maps no page of another that shares none with it |
| `KernelPages.PathsDiffer` | loader/src/main.rs:206-217 | bytes in different pages of a segment that stays in one half of the address space have different walks |
| `KernelLoader.MapRun` | loader/src/main.rs:206-217 | the loop over the pages: all of them shown, counted, and recorded |
| `KernelLoader.MapFilePages` | loader/src/main.rs:202-229 | the file pages of a segment: every file byte is backed by its own file page, earlier promises stand, only pages of the segment are recorded; free pages and room in the table leave want of frames as the only cause of a panic |
| `KernelLoader.RemapPages` | loader/src/main.rs:243-249 | the loop over the recorded pages moves exactly those of the file page |
| `KernelLoader.ReplaceBoundaryPage` | loader/src/main.rs:237-266 | the boundary page reads file bytes up to the end and zeros behind; it panics only for want of frames |
| `KernelLoader.AddZeroPages` | loader/src/main.rs:273-287 | the loop over fresh pages: all of them read zero; if they are free and different it panics only for want of frames |
| `KernelLoader.BareStartIsTaken` | loader/src/main.rs:218-229 | a segment without file bytes that starts with a page has mapped that page before its zero part asks for it |
| `KernelLoader.MapZeroPart` | loader/src/main.rs:231-289 | every zero byte past the boundary page is covered, by pages of the segment; with free pages it panics only for want of frames |
| `KernelLoader.MapSegment` | loader/src/main.rs:191-293 | one segment adds its promises, keeps those of the segments before it and concerns its own pages alone; a loadable one panics only for want of frames |
| `KernelLoader.PromisesMeanLoaded` | loader/src/main.rs:186-296 | the promises together determine every byte read through the tables |
| `KernelLoader.MapKernel` | loader/src/main.rs:186-296 | when it returns having used only frames outside the image, the tables are a tree, every byte reads as predicted, the file is in place if and only if its gaps are zero, pages outside the segments translate as before, and no segment was thread-local, had a non-canonical start, or was empty in the file at a page start; it returns only with at most a hundred file pages; a loadable file makes it panic only for want of frames |
| `AddressSpace.MapAllMemory` | loader/src/main.rs:333-341 | after the loop every frame below the limit is at its address plus the window offset, and nothing else was added; it never returns if a page of the window is mapped elsewhere, and panics only then or for want of frames |
| `AddressSpace.KernelKeepsWindow` | loader/src/main.rs:343-344 | what map_kernel leaves unchanged includes the window, if no file page lies in it |
| `AddressSpace.LoadableAfterWindow` | loader/src/main.rs:333-344 | a file that could be loaded before the window was made, and has no page in it, still can |
| `AddressSpace.SetupMappings` | loader/src/main.rs:327-344 | the window and then the kernel: afterwards the image is loaded, in place exactly if its gaps are zero, and the window is still there if no file page lies in it; a panic has one of four named causes |
| `AddressSpace.RequestKeepsWindow` | shared_lib/src/page_table.rs:223-236 | a request that does not remap a page of the window leaves the window in place, whatever it answers |
| `AddressSpace.RunKeepsWindow` | loader/src/main.rs:298-325 | so does any run of such requests |
| `AddressSpace.PointersReachFrames` | shared_lib/src/frame_allocator.rs:90-101 | under the finished tables the pointer the code computes reaches every byte of every frame below the limit, fresh ones and tables alike |
| `AddressSpace.WindowShowsExactly` | loader/src/main.rs:333-341 | built in empty tables, the window shows a frame if and only if it is below the limit |
| `AddressSpace.UsableFramesVisibleExactly` | loader/src/main.rs:333-341 | the window shows every frame the allocator may hand out if and only if every free region ends below the limit |
| `AddressSpace.LoaderWindowShowsAllExactly` | loader/src/main.rs:418-419 | with the limit the loader computes: if and only if the last region is not free, or empty, and every free region ends where the last frame of the last region begins or before |
| `AddressSpace.LastFrameStaysOutside` | loader/src/main.rs:418-419 | a free last region: its last frame may be handed out and is not in the window |
| `AddressSpace.HigherRegionStaysOutside` | loader/src/main.rs:418-419 | a free region listed before a lower last one may be handed out and is not in the window |
| `AddressSpace.HeapGrows` | src/allocator.rs:15-25 | one turn of the loop backs the next page with a frame used nowhere else |
| `AddressSpace.InitHeap` | src/allocator.rs:10-25 | with all usable frames inside the window, all 75 heap pages end up backed by pairwise distinct frames, none of them a table, every other translation unchanged, the window still there and all frames visible; it returns only if the heap pages were free, and panics only if one was mapped or frames ran out |
| `Tasks.SortedKeysBelow` | src/task/timer.rs:81-81 | the iteration order of the ordered map: all keys, ascending |
| `TasksSafety.RaiseKeepsAwake` | src/task/timer.rs:19-27 | a timer interrupt anywhere keeps every stream task polled, queued or registered |
| `TasksSafety.ScancodeKeepsAwake` | src/task/keyboard.rs:17-27 | so does a keyboard interrupt |
| `TasksSafety.TimerKeepsAwake` | src/task/timer.rs:44-61 | so does every atomic step of the timer stream's poll |
| `TasksSafety.KeyKeepsAwake` | src/task/keyboard.rs:44-61 | so does every atomic step of the keyboard stream's poll |
| `TasksSafety.PollKeepsAwake` | src/task/executor.rs:38-47 | so does entering a future, which creates a stream at most once |
| `TasksSafety.DecrementKeepsSleeps` | src/task/timer.rs:80-89 | ticking an entry keeps every sleeping task in exactly one place |
| `TasksSafety.WakeKeepsSleeps` | src/task/timer.rs:85-87 | waking an entry moves its task from the registration to the queue |
| `TasksSafety.RegisterKeepsSleeps` | src/task/timer.rs:147-154 | registering the waker of a sleep moves its sleeper from polled to registered |
| `TasksSafety.CheckKeepsSleeps` | src/task/timer.rs:91-98 | checking a sleep keeps the places and drops the entry of a finished one |
| `TasksSafety.FinishKeepsSleeps` | src/task/executor.rs:48-51 | removing a finished task keeps the others in place |
| `TasksSafety.NextKeepsInv` | src/task/executor.rs:36-82 | every step and every interrupt keeps the whole invariant |
| `TasksSafety.BootSpawns` | src/task/executor.rs:28-34 | spawning panics exactly with more than a hundred tasks; else every task is there under its own id and queued once, in the order of spawning |
| `TasksSafety.HaltedMeansParked` | src/task/executor.rs:64-81 | in a halted state under the invariant nothing is pending and everyone is registered |
| `TasksSafety.NoLostWakeup` | src/task/executor.rs:57-82 | in every run from boot under every interleaving, a halted processor has an empty ready queue, a clear timer flag, no pending scancode, and every live task registered with its waker, sleepers with ticks left |
| `TasksProgress.ServedInOrder` | src/task/executor.rs:36-54 | under the invariant a step or interrupt panics if and only if it wakes a task with a hundred queued or starts a second stream of a kind; otherwise who is woken goes to the end of the queue and who was queued longest is polled next |
| `TasksProgress.HaltsAndStops` | src/task/executor.rs:57-82 | any interrupt ends a halt and nothing else does; the executor stops exactly at the head of its loop after a key asked for it |
| `TasksProgress.FinishedTaskIsGone` | src/task/executor.rs:47-52 | a ready future takes its task and the task's waker away and changes nothing else |
| `TasksProgress.StreamWakers` | src/task/timer.rs:24-60 | when the waker cells of the two streams are filled and emptied, and that nothing else touches them |
| `TasksProgress.RaisedCounts` | src/task/timer.rs:19-27 | each timer interrupt that finds the flag in place is counted once, and nothing else is |
| `TasksProgress.CacheNeverLeaks` | src/task/executor.rs:42-51 | in every run from boot wakers are cached for live tasks only, and for every task inside its future |
| `TasksProgress.ComesToRest` | src/task/executor.rs:36-82 | from every state, without further interrupts and with tasks that only sleep, the processor halts, stops or panics |
| `TasksProgress.BootHalts` | src/task/executor.rs:28-82 | from boot with at most a hundred tasks and no two streams of a kind, without interrupts and with tasks that only sleep for ms, the processor halts without a panic, every task alive and parked, each sleeping task registered with its full ticks |
| `TasksProgress.HaltedTookAll` | src/task/keyboard.rs:17-62 | in every run, when the processor is halted every accepted scancode has been handed over |
| `TasksTiming.ScancodesConserved` | src/task/keyboard.rs:17-62 | in every run from boot the scancodes handed over followed by those queued are the accepted ones in order, and at most 100 are queued |
| `TasksTiming.DroppedOnlyWhenFull` | src/task/keyboard.rs:18-23 | a scancode that arrives after initialisation is dropped exactly if 100 are pending |
| `TasksTiming.DecrementKeepsTiming` | src/task/timer.rs:80-89 | ticking an entry keeps counters equal to period minus passes and every waker fired at most once |
| `TasksTiming.WakeKeepsTiming` | src/task/timer.rs:85-87 | so does waking it |
| `TasksTiming.TimerKeepsTiming` | src/task/timer.rs:44-61 | every atomic step of the timer stream's poll keeps ticks raised, countdowns and firings in step |
| `TasksTiming.TickStartsOnePass` | src/task/timer.rs:44-61 | the poll consumes a tick exactly if the flag is set, and each consumed tick starts one pass over all sleeps in ascending order |
| `TasksTiming.NextKeepsTiming` | src/task/timer.rs:19-155 | every step and interrupt keeps the timing invariant together with the safety one |
| `TasksTiming.SleepStarts` | src/task/timer.rs:118-138 | sleep_for(ms) registers a fresh sleep of max(1, ms/4) ticks that counts from this moment |
| `TasksTiming.SleepTiming` | src/task/timer.rs:70-155 | in every run: consumed ticks never exceed raised ones, a sleeping task is queued at most once, and between passes it is registered with period minus n ticks after n passes below the period, and queued with its waker fired exactly once from the period-th pass on |
| `TasksTiming.SleepEnds` | src/task/timer.rs:144-154 | a polled sleep is over exactly if its period of passes is, and then at least period minus one interrupts were raised since it was registered |
| `TasksProgress.TickRound` | src/task/timer.rs:19-155 | in a halted state with room for all tasks, a timer interrupt and the undisturbed time to halt again, with tasks that only sleep, take exactly one tick from every sleep and end those that had one left |
| `TasksProgress.SleepLasts` | src/task/timer.rs:70-155 | so a task with k ticks left sleeps through fewer than k timer interrupts and its sleep is over after k |
| `TasksProgress.SleepsOnTime` | src/task/timer.rs:70-155 | from boot, with tasks that only sleep for ms and no other interrupts: sleep_for(ms) lasts exactly max(1, ms/4) timer interrupts, if each leaves the time to halt again |
| `TimerManager.TimerTasksManager.RegisterTask` | src/task/timer.rs:71-78 | adds an entry exactly if the id is new |
| `TimerManager.TimerTasksManager.NewSleep` | src/task/timer.rs:119-137 | a fresh id is registered with max(1, ms/4) ticks and this never fails |
| `TimerManager.TimerTasksManager.DecrementAll` | src/task/timer.rs:80-89 | the loop ticks every entry exactly once and wakes, in ascending order, exactly the tasks whose counters have run out |
| `TimerManager.TimerTasksManager.CheckTask` | src/task/timer.rs:91-98 | tells whether the counter is zero, removes the entry exactly then, and panics on an unknown id |
| `TimerManager.TimerTasksManager.RegisterWaker` | src/task/timer.rs:100-103 | replaces the waker of an existing entry |
| `TimerManager.PassTicksAll` | src/task/timer.rs:106-112 | without an interrupt in between, the atomic steps of a pass do what decrement_all does, and queue the woken tasks in order |
| `BlockHeap.ListIndexMeaning` | shared_lib/src/allocator/fixed_size_block.rs:11-16 | the first list with blocks large enough for size and alignment, none exactly above 2048, and blocks aligned to their size are aligned for the layout |
| `BlockHeap.BlockForLayout` | shared_lib/src/allocator/fixed_size_block.rs:11-64 | the block for a layout is the smallest power of two from 8 to 2048 that suffices, aligned to its size, and beyond 2048 just what the layout asks for |
| `BlockHeap.PopKeepsBlocks` | shared_lib/src/allocator/fixed_size_block.rs:49-53 | taking a block off a list keeps the whole heap invariant, with the list shorter by its head |
| `BlockHeap.TakeKeepsBlocks` | shared_lib/src/allocator/fixed_size_block.rs:54-64 | a block from the fallback heap, or its refusal, keeps the invariant |
| `BlockHeap.PushKeepsBlocks` | shared_lib/src/allocator/fixed_size_block.rs:71-82 | writing the node of a freed block keeps the invariant, with the list longer by that block |
| `BlockHeap.GiveBackKeepsBlocks` | shared_lib/src/allocator/fixed_size_block.rs:83-86 | returning a large block to the fallback heap keeps the invariant |
| `BlockHeapRuns.HeapSafety` | shared_lib/src/allocator/fixed_size_block.rs:44-88 | over every allowed run of allocations, deallocations and writes: live and listed blocks partition the blocks taken from the fallback heap, all are pairwise apart and fit their layouts, the links in memory lead through exactly the listed blocks, and no block is listed twice, so no list has a cycle |
| `BlockHeapRuns.AllocGives` | shared_lib/src/allocator/fixed_size_block.rs:45-66 | a returned block is aligned, inside the memory, not live before, and apart from every live block |
| `BlockHeapRuns.LiveDataKept` | shared_lib/src/allocator/fixed_size_block.rs:45-88 | no event changes the data of a live block it does not concern |
| `BlockHeapRuns.DataSurvives` | shared_lib/src/allocator/fixed_size_block.rs:45-88 | data survives any run that neither frees nor writes its block |
| `BlockHeapRuns.FreedBlockIsReused` | shared_lib/src/allocator/fixed_size_block.rs:45-82 | freeing and allocating for the same list returns the same block and restores everything but its first word |
| `BlockHeapRuns.FixedSizeBlockAllocator.constructor` | shared_lib/src/allocator/fixed_size_block.rs:24-34 | nine empty lists, nothing taken |
| `BlockHeapRuns.FixedSizeBlockAllocator.Alloc` | shared_lib/src/allocator/fixed_size_block.rs:45-66 | the code computes the specified state and pointer and keeps the invariant |
| `BlockHeapRuns.FixedSizeBlockAllocator.Dealloc` | shared_lib/src/allocator/fixed_size_block.rs:68-88 | the code computes the specified state and keeps the invariant |
| `Crc.BitStepLinear` | shared_lib/src/crc.rs:13-24 | one step of the division is linear under exclusive or |
| `Crc.BuildEntry` | shared_lib/src/crc.rs:9-25 | the inner loop, with remainder and byte shifted side by side, computes eight steps of the byte |
| `Crc.BuildTable` | shared_lib/src/crc.rs:4-30 | entry i of the table is eight steps of i, for all 256 |
| `Crc.ByteIsEightBits` | shared_lib/src/crc.rs:32-38 | mixing a byte in and stepping eight times is feeding its eight bits one by one |
| `Crc.TableStep` | shared_lib/src/crc.rs:33-36 | one table look-up is eight bit-serial steps, for every remainder and byte |
| `Crc.CalculateCrc32Partial` | shared_lib/src/crc.rs:32-38 | equals the bit-serial remainder for every message and starting value |
| `Crc.CalculateCrc32` | shared_lib/src/crc.rs:40-49 | equals the bit-serial checksum for every message |
| `Crc.RemainderInPieces` | shared_lib/src/crc.rs:32-38 | checksumming piece by piece is checksumming the whole |
| `CrcBursts.DifferenceOfRemainders` | shared_lib/src/crc.rs:32-38 | the remainders of two messages differ by the remainder of their difference |
| `CrcBursts.BurstChangesRemainder` | shared_lib/src/crc.rs:32-49 | messages that differ only within 32 consecutive bits have different remainders |
| `CrcBursts.BurstDetected` | shared_lib/src/crc.rs:32-49 | messages that differ only within four consecutive bytes have different checksums, for every starting value |
| `CrcPolynomial.PolynomialIsGenerator` | shared_lib/src/crc.rs:19-19 | the constant is the CRC-32 generator without its leading term, highest coefficient in the lowest bit |
| `CrcPolynomial.FeedBitDivides` | shared_lib/src/crc.rs:13-24 | one bit-serial step multiplies the register polynomial by x, adds the message bit and takes away the generator exactly if that left degree 32 |
| `CrcPolynomial.RemainderIsDivision` | shared_lib/src/crc.rs:32-38 | a word is the remainder computed for a message if and only if it is the remainder of the message polynomial, shifted and with the start value added, divided by the generator |
| `CrcPolynomial.CheckValue` | shared_lib/src/crc.rs:51-55 | the digits one to nine have the checksum 0xCBF43926 |
| `Gpt.ChecksumArray` | src/gpt.rs:146-157 | the sector loop computes the remainder of all bytes of all sectors read |
| `Gpt.CoveredMeaning` | src/gpt.rs:142-147 | the bytes covered are never more than the array, and all of it exactly for whole sectors and fewer than 256 |
| `Gpt.CoveredDespiteWrap` | src/gpt.rs:142-147 | the product of number and size may wrap: the sectors read are the same as without |
| `Gpt.ReadIsPrefix` | src/gpt.rs:146-157 | the sectors read hold exactly the covered prefix of the array |
| `Gpt.LoopChecksumMeaning` | src/gpt.rs:146-157 | so the loop computes the checksum of that prefix |
| `Gpt.ChecksumIsWholeExactly` | src/gpt.rs:142-159 | the checksum of the sectors the loop reads equals that of the whole array, whatever the disk holds, if and only if the array is a whole number of sectors and fewer than 256 |
| `Gpt.CoveredIsUnread` | src/gpt.rs:142-157 | every array that is not covered has two contents with different checksums that the loop cannot tell apart |
| `Gpt.ShortArrayIsIgnored` | src/gpt.rs:80-187 | two disks that the parser accepts, under one header, whose arrays have different checksums |
| `Gpt.EveryArrayIsAccepted` | src/gpt.rs:80-187 | under that header, of one entry of a hundred bytes, the parser accepts every array |
| `Gpt.ChangedArrayIsRejected` | src/gpt.rs:146-161 | under an accepted header, an entry array that differs within four consecutive bytes is rejected for its checksum |
| `Gpt.ChangedHeaderIsRejected` | src/gpt.rs:126-136 | a header changed within four consecutive bytes outside signature, size and checksum is rejected for its checksum |
| `GptLayout.FieldBytes` | src/gpt.rs:30-46 | every header field is the little-endian number in its bytes |
| `GptLayout.VerdictMeaning` | src/gpt.rs:80-161 | the verdict on every disk, each error, panic and acceptance, read off the bytes of the boot record, the header and the array sectors |
| `GptLayout.AcceptedExactly` | src/gpt.rs:80-161 | a disk is accepted if and only if those bytes are all right, both checksums included |
| `GptParse.VisitEntries` | src/gpt.rs:163-183 | the nested loops visit the specified offsets in order |
| `GptParse.WholeEntriesVisited` | src/gpt.rs:163-183 | with entries that divide the sector and fill the sectors read, every entry is visited once and in order |
| `GptParse.EntriesVisitedExactly` | src/gpt.rs:142-183 | the visits are the entries in order if and only if the entry size is above one, divides 512, and the entries fill exactly the sectors read |
| `GptParse.OneByteEntriesAreMissed` | src/gpt.rs:166-166 | entries of one byte: the offset in words visits the first entry twice and the second never |
| `GptParse.CheckHeader` | src/gpt.rs:100-161 | signature, header checksum with its field zeroed, own address and array checksum, in this order, each with its error |
| `GptParse.ParseGpt` | src/gpt.rs:80-187 | returns the verdict for every disk, failed reads and overlong headers included, and on success has visited the specified offsets |
| `Terminals.TypeRefines` | shared_lib/src/logger.rs:130-156 | one character on the buffer does not fail and matches one on the unbounded terminal |
| `Terminals.VisibleRowsAreLastLines` | shared_lib/src/logger.rs:44-157 | after any text the visible rows are the last lines of the unbounded terminal, rows below the cursor are blank and the row count is still the column count |
| `Terminals.TooFewRows` | shared_lib/src/logger.rs:52-54 | with more visible rows than columns, enough newlines and a character reach a missing row |
| `Terminals.NoRows` | shared_lib/src/logger.rs:91-94 | without a visible row, a newline and a character fail |
| `Terminals.NeverFailsExactly` | shared_lib/src/logger.rs:48-54 | no text makes the buffer access fail if and only if there is a visible row and there are at least as many columns as visible rows |
| `Framebuffer.CellInBounds` | shared_lib/src/logger.rs:71-85 | every pixel of every cell lies inside the buffer when the stride is at least the width and the buffer holds all lines |
| `Framebuffer.CellsFillScreen` | shared_lib/src/logger.rs:48-49 | as many columns and rows of cells as fit behind the margin of one pixel |
| `Framebuffer.NextPixelDrawn` | shared_lib/src/logger.rs:121-128 | writing one pixel extends a partly drawn cell by exactly that pixel |
| `Framebuffer.PutShows` | shared_lib/src/logger.rs:139-147 | a character stored and its glyph drawn keep pixels and characters in agreement |
| `Framebuffer.OneMoreShown` | shared_lib/src/logger.rs:59-69 | redrawing one more cell extends the agreement by that cell |
| `Framebuffer.SolidIsNotBlank` | shared_lib/src/logger.rs:148-151 | a solid cell where the buffer holds NUL is a disagreement |
| `Framebuffer.LitIsDot` | shared_lib/src/logger.rs:122-125 | row y of a glyph is its byte y and column x the bit x of it |
| `Framebuffer.CellShowsGlyph` | shared_lib/src/logger.rs:71-128 | the bytes of a cell show a glyph if and only if each of its 64 pixels is [255, 255, 127, 0], in the order of the format, where the glyph has a dot and zero where it has none |
| `Framebuffer.ShowsExactly` | shared_lib/src/logger.rs:59-85 | pixels and characters agree if and only if every cell shows its glyph, dot by dot, and every byte outside the cells is zero |
| `LoggerCode.Logger.constructor` | shared_lib/src/logger.rs:44-57 | for every display of at least one pixel: an empty screen of as many rows as columns, all pixels zero; in agreement if the display can be drawn on |
| `Framebuffer.GlyphDrawsCell` | shared_lib/src/logger.rs:121-128 | a glyph written at the place of a cell draws that cell and nothing else |
| `LoggerCode.Logger.WritePixel` | shared_lib/src/logger.rs:71-85 | writes exactly the four bytes of the pixel |
| `LoggerCode.Logger.Write8x8` | shared_lib/src/logger.rs:121-128 | the nested loops write exactly the 64 pixels of the glyph, at any pixel position that fits the buffer |
| `LoggerCode.Logger.DrawCell` | shared_lib/src/logger.rs:139-147 | at a character cell this draws exactly the cell |
| `LoggerCode.Logger.DrawCharBuffer` | shared_lib/src/logger.rs:59-69 | after redrawing, pixels and characters agree whatever was there, margins zero |
| `LoggerCode.Logger.Newline` | shared_lib/src/logger.rs:87-98 | moves down or scrolls as specified and keeps the agreement |
| `LoggerCode.Logger.Clear` | shared_lib/src/logger.rs:104-112 | back to the state of a new logger |
| `LoggerCode.Logger.PutChar` | shared_lib/src/logger.rs:139-153 | stores a character on the line where it fits, and leaves its glyph, dot by dot, in its cell |
| `LoggerCode.Logger.WriteChar` | shared_lib/src/logger.rs:130-156 | fails exactly for characters without glyph; else the buffer changes as specified, the cell before the cursor shows the glyph dot by dot, solid for NUL, and pixels that agreed before agree after if and only if the character is not NUL |
| `LoggerCode.Logger.WriteStr` | shared_lib/src/logger.rs:159-166 | succeeds exactly if every character can be shown, types the text, and keeps the agreement for text without NUL |
| `Ide.LbaByteMeaning` | src/ide.rs:409-429 | the masked and shifted address bytes and head bits are the base-256 digits and the low nibble of the top one |
| `Ide.AddressReassembles` | src/ide.rs:409-429 | the bytes put the address back together in both modes |
| `Ide.SelectByteMeaning` | src/ide.rs:439-447 | the select byte carries the drive and the head bits without interference |
| `Ide.HighOrderMeaning` | src/ide.rs:153-155 | the control byte for the high-order registers has its topmost bit set and is otherwise unchanged |
| `Ide.PreparedDecodes` | src/ide.rs:402-457 | the registers left by io_prepare decode to exactly the drive, the address and the count in both modes, with interrupts off and the low-order registers selected |
| `Ide.CommandStarts` | src/ide.rs:459-479 | the command written starts exactly the transfer asked for, or none if it leaves the drive or the reach of the mode |
| `Ide.ReadsBack` | src/ide.rs:484-543 | a range overwritten reads back, and all other sectors are unchanged |
| `Ide.CheckIsExactUnlessItWraps` | src/ide.rs:547-561 | the driver's range test agrees with the true one if and only if the sum does not wrap or wraps to something still too large |
| `Ide.CheckPassesBeyondTheEnd` | src/ide.rs:548-550 | a range past the end that the range test lets through |
| `Ide.CountByteIsExact` | src/ide.rs:488-488 | the count byte carries the number of sectors exactly for 1 to 255, 256 in the 28-bit mode and 65536 in the 48-bit mode |
| `IdeDriver.UsableExactly` | src/ide.rs:402-434 | for up to 255 sectors, the requests that pass the range test, have a mode and are not refused are exactly those inside the drive that do not straddle 2^28 and have 28-bit addressing if they need it |
| `IdeDriver.Controller.constructor` | src/ide.rs:240-256 | the register bases computed from the legacy addresses |
| `IdeDriver.Controller.IdeWrite` | src/ide.rs:152-173 | writes one register of one channel, the high-order ones framed by control writes, byte by byte on the ports, and leaves the other channel alone |
| `IdeDriver.Controller.WriteHighOrder` | src/ide.rs:448-451 | the four high-order registers |
| `IdeDriver.Controller.IoPrepare` | src/ide.rs:402-482 | sends exactly the bytes of the 28-bit or the 48-bit command, port by port and in order; this starts exactly the transfer asked for on the drive asked for, changes no disk, and panics exactly without 28-bit addressing below 2^28 |
| `IdeDriver.Controller.SendSector` | src/ide.rs:497-499 | the words of a sector store exactly that sector |
| `IdeDriver.Controller.WriteImpl` | src/ide.rs:484-511 | stores the sectors the adapter expects, as many as were given, and no others; a request out of reach or without a mode changes no disk; besides the command only the cache flush of the mode is sent, last |
| `IdeDriver.Controller.ReceiveSector` | src/ide.rs:531-535 | the words received are the next sector |
| `IdeDriver.Controller.ReadImpl` | src/ide.rs:512-543 | returns the sectors of a range in reach; changes no disk in any case |
| `IdeDriver.Controller.Read` | src/ide.rs:547-553 | out-of-range error exactly if the range test fails, with nothing changed; a usable request returns the range and leaves an idle channel; no disk is changed in any case |
| `IdeDriver.Controller.Write` | src/ide.rs:555-561 | out-of-range error exactly if the range test fails, with nothing changed; a usable request overwrites exactly the range; any other changes no disk |
| `IdeDriver.Controller.WriteThenRead` | src/ide.rs:546-561 | writing 1 to 255 sectors and reading them returns the data and leaves all other sectors, the other drive and the other channel unchanged |

## Left out

- Inline assembly, CR3, the TLB and `invlpg`: memory and tables only.
- The APIC, the clock, GDT, IDT, the bit helpers, ACPI tables, PCI, serial ports, the shell and the boot wiring: I/O plumbing or small finite arithmetic.
- The inside of the fallback heap, the lock-free queue, the waker cell, the ELF reader, the firmware and the font: contracts or parameters only.
- Allocated frames are taken to lie outside the kernel image up to a stated limit: the loader classes LOADER_DATA as free, so this cannot be derived.
- The kernel file is taken to be page aligned, with congruent offsets and segments in ascending file order, as the linker produces it.
- TLS segments end the loader with a panic and are modelled as such; mapping the framebuffer, the stack and the boot information only adds requests of the kind already covered.
- Logging, also inside interrupt handlers.
- The executor, its wakers and the two streams are steps on a state value, not objects, because an interrupt may change their shared cells between any two steps; only the timer tasks manager is also given as an object.
- TasksProgress.ComesToRest, BootHalts and SleepsOnTime: in the runs they speak of every task only sleeps, always equally long, and none finishes; that the executor rests under a flood of interrupts is not claimed.
- What a running future computes: a task is the timer loop, the key printer, or code that only awaits sleeps, with its choices left open; key decoding is a choice to stop or go on.
- Partition names, GUID texts and their panics in the GPT parser; a GPT block device is a sequence of sectors whose failed reads panic.
- Device probing, identification and status polling in the ATA driver: the adapter is fault-free and always ready; DMA and CHS are unimplemented in the source.
- Pixel formats other than RGB and BGR, on which the logger loops for ever.
- A display of width or height zero, for which the logger's constructor wraps around.
- KernelLoader.MapKernel: that a loadable file fails only for want of frames goes one way; two segments that share a page backed by the same file page, or a file that leaves its half of the address space, may load as well.
- AddressSpace.LoaderWindowShowsAllExactly: takes the usable frames to lie where their window addresses stay in the lower half, and the last region not to be empty at address zero, where the limit wraps.
- CalculateCrc32: calls the partial computation instead of repeating its loop.
