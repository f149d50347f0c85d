# Verified kernel model

Dafny models and proofs for four pieces of a teaching kernel on a 32-bit x86 machine. Every state-changing
routine is a method proved against a function or relation on values; the main theorems are about those.

- **Demand paging** (`Words`, `FramePool`, `Mmu`, `AddressSpace`, `PagingTheorems`, `PageTable`). Physical memory
  is an array of frames of 1024 words. The page directory maps itself, so every load and store of the fault
  handler and of `free_page` goes through a hardware walk (section 4.3 of the Intel SDM, Volume 3A) of the very
  tables being edited. One ownership invariant carries the proofs: directory, first table, every table and every
  mapped page each own a different in-use pool frame.
- **Context switch, pre-emption, round robin** (`Cpu`, `ThreadsLow`, `ContextSwitch`, `Interrupts`, `Thread`,
  `StartUp`, `Scheduler`, `Preemption`, `Kernel`, `KernelMain`). The assembly is a sequence of instructions on registers and stack
  cells. It refines an abstract machine in which each thread owns a register file and a stack. `StartUp` reaches
  that machine from the first instruction of main; `Preemption` and `Kernel` join it to the ready queue and the
  timer: after k turns the thread k places behind runs with what it was interrupted with. `KernelMain` runs all of
  it, from the creation of the threads through any sequence of interrupts and shutdowns.
- **Inode file system** (`Bits`, `Disk`, `FreeList`, `Volume`, `FileTheorems`, `FileRuns`, `LostBlocks`,
  `FileSystem`, `File`). The disk is an array of 512-byte blocks, with the little-endian casts written out.
  Free-list words are numbers with bitwise operators defined on them. Every data block is accounted for over every
  run, those that writes lose included.
- **First-fit pool** (`FirstFit`, `VmPool`). A sorted doubly linked list of regions beside a bitmap of pages.

`dafny verify dfyconfig.toml` checks everything.

## Assumptions

- Paging: no pool frame lies in the identity-mapped first 4 MB (P2/mp2/kernel.C:19-29, kept in P3); accesses are
  supervisor accesses with write protection off; the translation caches are transparent. The processor does not
  write its accessed and dirty bits into entries, which would make a used entry differ from the one the kernel
  stored. `err_code` and `cr2` are parameters.
- Threads: the stub is called with interrupts off, since it keeps words below esp for a moment; this is a conjunct
  of `ContextSwitch.CallsSwitch`. Status flags sit in the low six bits of the model's eflags word. Cells of memory
  are the aligned words. The other threads and the kernel may do anything except write the stacks and saved stack
  pointers of suspended threads. No quantum ends between main's enabling of interrupts and the first dispatch. The C
  functions between the dispatcher and the switch use the same number of stack words in every thread, and the
  interrupted thread has room for them.
- Files: a mounted disk has at least the 20480 blocks that the free list describes. `Read` and `Write` use the
  position as an offset into the first block, so they require it to be below 512, n to be at least 1 and the end to
  be at most 65536; `Write` requires blocks for its middle part, and a buffer of n + 1 bytes when the byte before the
  position is NUL, because it then reads that many. The uninitialised part of the write buffer is arbitrary. The
  spin locks are a sequential run.
- Pool: requests have at least two bytes, the first one fits the pool, and the first region is not released;
  the code indexes out of bounds or follows a null pointer otherwise.

## What does not hold

Six promises fail on inputs the code accepts. Each has its exact condition, and an input that breaks it:

- A fault keeps the self map and the identity map and gives every use its own in-use frame:
  `PagingTheorems.FaultKeepsInvIff`. It fails on an empty pool (`PagingTheorems.FaultBreaksInv`), and in the window,
  where a table is linked uninitialised (`PagingTheorems.WindowFaultExposesOldContents`), when its words make pages of
  frames that are free, shared or owned (`PagingTheorems.WindowFaultBreaksInv` maps the directory as a data page).
- `free_page` keeps them: `PagingTheorems.FreeKeepsInvIff`. It fails for the identity map
  (`PageTable.FreeKernelPage`) and for the window pages of the directory and the first table; on other window pages it
  leaks (`PagingTheorems.WindowFreeLeaksPages`).
- The switch keeps every flag: `ContextSwitch.FlagsAreKeptIff`, with `ContextSwitch.FlagsAreLost`.
- `Write` returns n: `FileTheorems.WriteReturnsIff`. It fails behind a NUL (`File.WriteAfterNul`) and without a block
  for the last part (`File.WriteOnFullDisk`).
- Deletion gives back the blocks of a file: `LostBlocks.DeleteReclaimsIff`. It fails after a second write of more
  than one block (`File.WriteTwice`), which takes fresh blocks for slots that have one.
- `is_legitimate` is about regions (P3/mp3_Shiyang_Chen/vm_pool.H:78-79): `FirstFit.PageTestIsExactIff`. It tests
  pages, so it fails behind the last byte of a region on the region's pages (`FirstFit.SlackPasses`).

## Model

| member | source | states |
|---|---|---|
| FramePool.FirstFreeIsLeast | P3/mp3_Shiyang_Chen/frame_pool.C:22-33 | the search returns the least available frame of the pool, and 0 exactly when none is left |
| FramePool.TakenMovesOne | P3/mp3_Shiyang_Chen/frame_pool.C:26-30 | one allocation moves exactly one frame from available to in use |
| FramePool.GivenBackMovesOne | P3/mp3_Shiyang_Chen/frame_pool.C:41-44 | one release takes exactly one frame out of use |
| FramePool.FramePool.constructor | P3/mp3_Shiyang_Chen/frame_pool.C:9-20 | only the information frame, or the pool's first frame, becomes unavailable |
| FramePool.FramePool.GetFrame | P3/mp3_Shiyang_Chen/frame_pool.C:22-33 | the loop implements the first-fit search on the shared table |
| FramePool.FramePool.MarkInaccessible | P3/mp3_Shiyang_Chen/frame_pool.C:35-39 | exactly the given range becomes unavailable |
| FramePool.FramePool.ReleaseFrame | P3/mp3_Shiyang_Chen/frame_pool.C:41-44 | exactly one entry of the shared table changes |
| FramePool.FramePool.FrameInit | P3/mp3_Shiyang_Chen/frame_pool.C:46-52 | the first 512 frames are unavailable, all others available |
| Mmu.RecursiveWindow | P3/mp3_Shiyang_Chen/page_table.C:25-25 | with slot 1023 self-mapped, 0xFFC00000 + X*4096 + Y*4 walks to entry Y of table X, to the directory for X = 1023, without 32-bit overflow |
| Mmu.FlagsAreTwoBits | P3/mp3_Shiyang_Chen/page_table.C:25-31 | `address OR 3` changes the two low bits only, and an entry is the frame address plus 3 |
| Mmu.Machine.Store | P3/mp3_Shiyang_Chen/page_table.C:76-80 | a store changes the one physical word that the walk of current memory finds |
| Mmu.Machine.Load | P3/mp3_Shiyang_Chen/page_table.C:71-83 | a load returns the physical word that the walk of current memory finds |
| AddressSpace.ConstructEstablishesInv | P3/mp3_Shiyang_Chen/page_table.C:20-39 | two available frames are enough for a directory and first table that satisfy the ownership invariant |
| AddressSpace.NewTableKeepsInv | P3/mp3_Shiyang_Chen/page_table.C:71-81 | making a table keeps the invariant, adds one owner and moves no other |
| AddressSpace.MapPageKeepsInv | P3/mp3_Shiyang_Chen/page_table.C:83-88 | mapping a page keeps the invariant, adds one owner and moves no other |
| AddressSpace.ReleaseKeepsInv | P3/mp3_Shiyang_Chen/page_table.C:108-127 | unmapping a page keeps the invariant and removes exactly that owner |
| PagingTheorems.FaultMapsOnePage | P3/mp3_Shiyang_Chen/page_table.C:52-92 | a not-present fault maps the page to a free frame and takes no other but that of a new table; every mapped page keeps its frame and contents; exactly the window page of a new table, and for a window fault the pages of the table it links, become mapped with it |
| PagingTheorems.FaultMapsOneAddress | P3/mp3_Shiyang_Chen/page_table.C:63-88 | the same for every 32-bit address under the hardware walk, in terms of the walk alone |
| PagingTheorems.StepMapsTheMissingPage | P3/mp3_Shiyang_Chen/page_table.C:52-92 | exception 14 maps the page of the faulting address, to a free frame when there are enough and to frame 0 otherwise; a protection fault or a mapped page changes nothing |
| PagingTheorems.StepFreesThePage | P3/mp3_Shiyang_Chen/page_table.C:95-129 | free_page unmaps the page of that number and frees its frame; only the pages of a table go with its window page; every other address, frame and word stays, and an absent page changes nothing |
| PagingTheorems.ReleaseUnmapsOnePage | P3/mp3_Shiyang_Chen/page_table.C:108-127 | seen through the walk, a release unmaps one page, and through the window the pages of one table |
| PagingTheorems.NewTableFrame | P3/mp3_Shiyang_Chen/page_table.C:71-81 | seen through the walk, a new table changes only its own window page |
| PagingTheorems.MapPageFrame | P3/mp3_Shiyang_Chen/page_table.C:83-88 | seen through the walk, mapping changes one page and writes one table frame that no page reaches |
| PagingTheorems.FaultKeepsInvIff | P3/mp3_Shiyang_Chen/page_table.C:73-85 | a fault keeps the self map, the identity map and the ownership of frames exactly when the pool has the one or two frames it needs (the failure value 0 is not checked) and, in the window, the words of the frame linked as a table that look present name different in-use frames without an owner |
| PagingTheorems.FaultBreaksInv | P3/mp3_Shiyang_Chen/page_table.C:83-88 | with two frames in the pool the page table is built and the first fault breaks the invariant |
| PagingTheorems.WindowFaultBreaksInv | P3/mp3_Shiyang_Chen/page_table.C:69-88 | with a stale word in the next frame, a fault on a window page maps the page directory as a data page |
| PagingTheorems.WindowFaultExposesOldContents | P3/mp3_Shiyang_Chen/page_table.C:69-88 | a fault on a window page links an uninitialised table: what was mapped stays, and exactly the pages of that table where the frame held an odd word become mapped with it |
| PagingTheorems.FreeUndoesFault | P3/mp3_Shiyang_Chen/page_table.C:83-127 | free_page after a fault on the same page, window pages included, restores frame table and memory with a blank entry, up to a table the fault had to make; that is the whole state when the entry was the kernel's own |
| PagingTheorems.FreeKeepsInvIff | P3/mp3_Shiyang_Chen/page_table.C:95-129 | free_page keeps the invariant exactly outside the identity map and outside the window pages of the directory and first table |
| PagingTheorems.WindowFreeLeaksPages | P3/mp3_Shiyang_Chen/page_table.C:108-127 | freeing the window page of a table loses exactly the frames of the pages mapped through it |
| PagingTheorems.NewTableConserves | P3/mp3_Shiyang_Chen/page_table.C:73-76 | frames in use minus tables minus pages is unchanged by a new table |
| PagingTheorems.MapPageConserves | P3/mp3_Shiyang_Chen/page_table.C:85-85 | and by a newly mapped page |
| PagingTheorems.ReleaseConserves | P3/mp3_Shiyang_Chen/page_table.C:120-123 | and by an unmapped page |
| PagingTheorems.PermittedIff | P3/mp3_Shiyang_Chen/page_table.C:52-129 | an event keeps the invariant exactly when the conditions above permit it |
| PagingTheorems.StepKeepsTidyIff | P3/mp3_Shiyang_Chen/page_table.C:74-127 | entries stay blank or frame with flags 3, except through a window fault whose frame held something else |
| PagingTheorems.WindowFaultAdoptsPages | P3/mp3_Shiyang_Chen/page_table.C:83-88 | a window fault takes one frame for a table and counts in the pages that its words make |
| PagingTheorems.StepKeepsInv | P3/mp3_Shiyang_Chen/page_table.C:52-129 | every permitted fault or free, in the window or not, keeps the invariant and moves the frame account by what the window leaks or adopts |
| PagingTheorems.RunKeepsInv | P3/mp3_Shiyang_Chen/page_table.C:52-129 | so does every run of them |
| PagingTheorems.NoDriftOffWindow | P3/mp3_Shiyang_Chen/page_table.C:52-129 | without events in the window the frame account does not move |
| PagingTheorems.ReachableStatesAreSafe | P3/mp3_Shiyang_Chen/page_table.C:20-129 | in every state reachable by permitted events: self map, identity map, no shared frames, no table reachable as a page, frames in use = start + 2 + tables + pages, plus what events in the window leaked |
| PagingTheorems.PagesAreDisjoint | P3/mp3_Shiyang_Chen/page_table.C:85-85 | two pages outside the window never share a frame |
| PagingTheorems.NoTableIsAPage | P3/mp3_Shiyang_Chen/page_table.C:76-85 | no directory or table frame is mapped outside the window |
| PageTable.PageTable.constructor | P3/mp3_Shiyang_Chen/page_table.C:20-39 | the physical stores with paging off build the specified memory |
| PageTable.PageTable.Load | P3/mp3_Shiyang_Chen/page_table.C:41-45 | cr3 takes the directory; nothing else changes |
| PageTable.PageTable.StoreEntry | P3/mp3_Shiyang_Chen/page_table.C:69-80 | a write through the window lands in the table's own frame |
| PageTable.PageTable.MakeTable | P3/mp3_Shiyang_Chen/page_table.C:71-81 | the 1024 stores through the map being built leave a blank table |
| PageTable.PageTable.FillEntry | P3/mp3_Shiyang_Chen/page_table.C:83-89 | the entry is filled only when absent |
| PageTable.PageTable.HandleFault | P3/mp3_Shiyang_Chen/page_table.C:52-92 | the handler, all accesses translated by the edited structure, implements the specified step for every address and error code: the page of cr2 walks afterwards to a frame that was free, or to frame 0 without one, what else joins or stays is exact, and any other fault changes nothing |
| PageTable.PageTable.FreePage | P3/mp3_Shiyang_Chen/page_table.C:95-129 | likewise for free_page: the numbered page is unmapped, its frame is free again, all else is as before |
| PageTable.PageTable.Serve | P3/mp3_Shiyang_Chen/page_table.C:52-129 | the real handlers keep the invariant over every permitted run |
| PageTable.Boot | P3/mp3_Shiyang_Chen/page_table.C:12-45 | after frame_init and the pool set-up (as in P3/mp3_Shiyang_Chen/kernel.C, lines 133-146), init_paging, construction and load reach a running page table that satisfies the invariant, with nothing mapped and exactly frames 514-1023, 1026-3839 and 4096 up free |
| PageTable.FreeKernelPage | P3/mp3_Shiyang_Chen/page_table.C:95-129 | freeing page 512 right after the set-up unmaps it from the identity map, and the kernel's pool hands out its frame next |
| Cpu.UnframeDependsOnFrame | P4/410-14c-P4-supp-code/MP4_Sources/threads_low.asm:41-48 | restoring depends on the 68 bytes of the frame only |
| Cpu.Processor.SaveRegisters | P4/410-14c-P4-supp-code/MP4_Sources/threads_low.asm:31-37 | the twelve pushes, and no other cell |
| Cpu.Processor.RestoreRegistersAndIret | P4/410-14c-P4-supp-code/MP4_Sources/threads_low.asm:41-48 | restore_registers and iret load exactly the frame at esp |
| ThreadsLow.Reshape | P4/410-14c-P4-supp-code/MP4_Sources/threads_low.asm:80-88 | the call's stack slot becomes eip, cs, eflags of an interrupt frame |
| ThreadsLow.SaveContext | P4/410-14c-P4-supp-code/MP4_Sources/threads_low.asm:80-95 | the frame brings the caller back: every general and segment register as at the call, eip the return address, esp one word up, cs 8, and the flags above the status flags |
| ThreadsLow.Suspend | P4/410-14c-P4-supp-code/MP4_Sources/threads_low.asm:80-99 | and its address is stored in the thread's control block |
| ThreadsLow.LoadContext | P4/410-14c-P4-supp-code/MP4_Sources/threads_low.asm:107-134 | the named thread becomes current and runs from its frame |
| ThreadsLow.SwitchTo | P4/410-14c-P4-supp-code/MP4_Sources/threads_low.asm:56-134 | both paths of threads_low_switch_to implement the specified switch, and the frame left behind brings the caller back field by field |
| ThreadsLow.StatusIsOverwritten | P4/410-14c-P4-supp-code/MP4_Sources/threads_low.asm:64-85 | status flags from the compare do not reach the saved frame |
| ContextSwitch.CallIsDefined | P4/410-14c-P4-supp-code/MP4_Sources/threads_low.asm:56-116 | the stub's preconditions hold at every call with room on the stack |
| ContextSwitch.SwitchRefines | P4/410-14c-P4-supp-code/MP4_Sources/threads_low.asm:80-116 | the full switch refines an abstract machine with one register file and stack per thread |
| ContextSwitch.SwitchKeepsOthers | P4/410-14c-P4-supp-code/MP4_Sources/threads_low.asm:80-108 | no other thread's stack or saved esp is touched |
| ContextSwitch.ViewIsStable | P4/410-14c-P4-supp-code/MP4_Sources/threads_low.asm:97-116 | over any run a thread's registers and stack stay put while others run |
| ContextSwitch.SwitchIsTransparent | P4/410-14c-P4-supp-code/MP4_Sources/threads_low.asm:80-116 | a thread switched out and back, after any run of others, continues as if the call had returned: each register by name, the word at its esp as eip, esp four up, cs 8, and its stack |
| ContextSwitch.FlagsAreKeptIff | P4/410-14c-P4-supp-code/MP4_Sources/threads_low.asm:80-85 | eflags is kept bit for bit exactly when the status flags already were those of the stub's add; IF and all other flags always are |
| ContextSwitch.FlagsAreLost | P4/410-14c-P4-supp-code/MP4_Sources/threads_low.asm:80-85 | a call with esp 0x1000 and no status flag set comes back with AF set |
| Interrupts.Enter | P4/410-14c-P4-supp-code/MP4_Sources/irq_low.asm:19-148 | interrupt entry and the stub build the whole frame, interrupt number 32 and error code 0 included, load the kernel data segment and pass the frame's address |
| Interrupts.Leave | P4/410-14c-P4-supp-code/MP4_Sources/irq_low.asm:149-157 | the stub's exit loads the frame |
| Interrupts.PreemptionIsTransparent | P4/410-14c-P4-supp-code/MP4_Sources/irq_low.asm:132-157 | a pre-empted thread leaves the stub with every register, eflags, eip, esp and its stack, whatever switches happened |
| Interrupts.RunKeepsFrame | P4/410-14c-P4-supp-code/MP4_Sources/irq_low.asm:132-157 | over any run the interrupted thread's saved frame and the stack above it are untouched |
| Interrupts.EntryIsLocal | P4/410-14c-P4-supp-code/MP4_Sources/irq_low.asm:19-148 | entering the stub disturbs no other thread |
| Thread.Thread.Push | P4/410-14c-P4-supp-code/MP4_Sources/thread.C:62-66 | esp in the control block goes down by four and the value is stored there |
| Thread.Thread.SetupContext | P4/410-14c-P4-supp-code/MP4_Sources/thread.C:97-166 | the twenty pushes forge start-up words and frame, with interrupts turned off first |
| Thread.Thread.constructor | P4/410-14c-P4-supp-code/MP4_Sources/thread.C:172-195 | a new thread takes the next id, and its control block points at a forged frame at the top of its stack |
| Thread.ForgedThreadIsSuspended | P4/410-14c-P4-supp-code/MP4_Sources/thread.C:97-166 | a thread created while another runs joins the others as a suspended one, starts thread_start with interrupts off, ds and es 0x10, cs 8 and zeroed other registers, and disturbs no one |
| Thread.ForgedFrameFitsIff | P4/410-14c-P4-supp-code/MP4_Sources/thread.C:97-166 | the forged frame lies on the stack exactly when that has at least 80 bytes |
| Thread.ThreadRunsThenShutsDown | P4/410-14c-P4-supp-code/MP4_Sources/thread.C:71-135 | thread_start returns into the thread function with interrupts on, whose return enters thread_shutdown |
| StartUp.StartStepKeepsStarting | P4/410-14c-P4-supp-code/MP4_Sources/kernel.C:295-315 | with no thread running, a creation adds one waiting thread with its forged registers and start-up words and disturbs none |
| StartUp.FirstDispatch | P4/410-14c-P4-supp-code/MP4_Sources/threads_low.asm:118-134 | the first dispatch, from current_thread 0, runs the first thread as forged and establishes the machine of threads |
| StartUp.ExecutionKeepsValid | P4/410-14c-P4-supp-code/MP4_Sources/kernel.C:295-330 | from the first instruction of main every reachable state has all threads on their own stacks |
| StartUp.SwitchIsTransparentFromStart | P4/410-14c-P4-supp-code/MP4_Sources/threads_low.asm:56-134 | in every execution from main, a thread that calls the switch continues as if the call had returned |
| StartUp.PreemptionIsTransparentFromStart | P4/410-14c-P4-supp-code/MP4_Sources/irq_low.asm:132-157 | in every execution from main, an interrupted thread leaves the stub with the registers and stack it had |
| Scheduler.Ring | P4/410-14c-P4-supp-code/MP4_Sources/scheduler.C:13-50 | full exactly when tag is 1 and front equals rear, empty exactly when tag is 0 and front equals rear |
| Scheduler.RingInsert | P4/410-14c-P4-supp-code/MP4_Sources/scheduler.C:20-22 | an insertion appends, for every ring size |
| Scheduler.RingRemove | P4/410-14c-P4-supp-code/MP4_Sources/scheduler.C:52-54 | a removal drops the head, for every ring size |
| Scheduler.Scheduler.constructor | P4/410-14c-P4-supp-code/MP4_Sources/scheduler.C:5-10 | the queue starts empty |
| Scheduler.Scheduler.Add | P4/410-14c-P4-supp-code/MP4_Sources/scheduler.C:11-25 | appends to a bounded queue of M threads; spins exactly when it is full |
| Scheduler.Scheduler.Resume | P4/410-14c-P4-supp-code/MP4_Sources/scheduler.C:27-41 | the same for a resumed thread |
| Scheduler.Scheduler.Yield | P4/410-14c-P4-supp-code/MP4_Sources/scheduler.C:43-58 | hands out the oldest thread; none exactly when the queue is empty |
| Scheduler.RoundRobin | P4/410-14c-P4-supp-code/MP4_Sources/scheduler.C:27-58 | after k turns, quanta and shutdowns in any mix, the thread k places behind runs |
| Scheduler.NotBeforeItsTurn | P4/410-14c-P4-supp-code/MP4_Sources/scheduler.C:27-58 | and not before |
| Scheduler.ThreadsAreConserved | P4/410-14c-P4-supp-code/MP4_Sources/scheduler.C:11-65 | scheduled and shut-down threads together are always the original ones, without loss or duplicate |
| Scheduler.WithinQuantum | P4/410-14c-P4-supp-code/MP4_Sources/simple_timer.C:57-70 | the list stands at every tick before the last of a quantum and is rotated by that one |
| Scheduler.RoundRobinInTime | P4/410-14c-P4-supp-code/MP4_Sources/simple_timer.C:57-70 | without shutdowns the thread k places behind starts exactly k quanta later and runs for its whole quantum |
| Scheduler.StartsWithin | P4/410-14c-P4-supp-code/MP4_Sources/simple_timer.C:57-70 | with any mix of ticks and shutdowns the thread k places behind has started by the k-th end of a quantum |
| Scheduler.RoundRobinTimer.HandleInterrupt | P4/410-14c-P4-supp-code/MP4_Sources/simple_timer.C:50-71 | a tick ends the quantum exactly when 20 * (ticks + 2) exceeds hz (for hz of at least 0), and then rotates the real queue and counts in seconds; otherwise only the ticks go up; it spins exactly when there are more threads than slots |
| Scheduler.QuantumLength | P4/410-14c-P4-supp-code/MP4_Sources/simple_timer.C:60-60 | a quantum of q ticks has 20 q <= hz < 20 (q + 1), and is one tick below 20 Hz |
| Scheduler.RoundRobinTimer.ThreadShutdown | P4/410-14c-P4-supp-code/MP4_Sources/thread.C:71-88 | the head is dropped; the last thread has nowhere to go |
| Preemption.TurnResumes | P4/410-14c-P4-supp-code/MP4_Sources/simple_timer.C:57-70 | one turn, from the interrupt to the resumed instruction, hands the processor to the next thread of the queue with the registers and stack it waited with, and keeps all others ready |
| Preemption.ResumesInTurn | P4/410-14c-P4-supp-code/MP4_Sources/simple_timer.C:57-70 | after k turns, quanta and shutdowns in any mix, the machine runs the thread k places behind with exactly what it waited with |
| Preemption.PreemptedThreadResumes | P4/410-14c-P4-supp-code/MP4_Sources/simple_timer.C:57-70 | the thread interrupted in a list of n runs again after n - 1 further turns, with every register and the stack it was interrupted with |
| Preemption.FollowsRoundRobin | P4/410-14c-P4-supp-code/MP4_Sources/scheduler.C:27-58 | over any run the running thread and the waiting ones are those of the round-robin list |
| Kernel.TimerInterrupt | P4/410-14c-P4-supp-code/MP4_Sources/irq_low.asm:132-157 | interrupt entry, timer handler, real queue, switch, return into the stub and its exit together make one such turn exactly when the quantum ends, and otherwise return to the interrupted thread |
| Kernel.ThreadShutdown | P4/410-14c-P4-supp-code/MP4_Sources/thread.C:71-88 | thread_shutdown on the machine: the next thread takes over for good as one turn, and the last thread is stuck |
| KernelMain.CreateThread | P4/410-14c-P4-supp-code/MP4_Sources/thread.C:172-195 | before the first dispatch, construction takes the next id, adds one waiting thread that will enter its own function, and keeps the others |
| KernelMain.FirstDispatchTo | P4/410-14c-P4-supp-code/MP4_Sources/thread.C:201-213 | main's call, whatever stack words it uses, takes the short path of the stub and starts the first thread |
| KernelMain.StartThreads | P4/410-14c-P4-supp-code/MP4_Sources/kernel.C:295-330 | four threads, the other three of them in creation order in a new queue behind a new timer, and the first dispatch leave everything ready for the first timer interrupt; each thread is about to enter its own function |
| KernelMain.Serve | P4/410-14c-P4-supp-code/MP4_Sources/simple_timer.C:50-71 | over any sequence of timer interrupts and shutdowns, with computing in between, the real machine makes the turns of round robin and the timer follows the list |
| KernelMain.StartAndServe | P4/410-14c-P4-supp-code/MP4_Sources/kernel.C:295-330 | from the creation of the threads on, any such sequence is a run of turns from the state in which every thread was new |
| Bits.FlagTest | P5/410-14c-P5-supp-code/MP5_Sources/file_system.C:245-245 | the mask test reads one flag |
| Bits.FlagOfClear | P5/410-14c-P5-supp-code/MP5_Sources/file_system.C:247-247 | clearing with the negated mask changes that flag only |
| Bits.FlagOfSet | P5/410-14c-P5-supp-code/MP5_Sources/file_system.C:353-353 | setting with the mask changes that flag only |
| Disk.SimpleDisk.Read | P5/410-14c-P5-supp-code/MP5_Sources/simple_disk.C:62-77 | a read returns the block |
| Disk.SimpleDisk.Write | P5/410-14c-P5-supp-code/MP5_Sources/simple_disk.C:79-95 | a write replaces one block |
| Disk.WordsRoundTrip | P5/410-14c-P5-supp-code/MP5_Sources/file_system.C:250-250 | a list part cast to bytes and back is the same words |
| Disk.LongsRoundTrip | P5/410-14c-P5-supp-code/MP5_Sources/file_system.C:429-449 | an inode cast to bytes and back is the same signed pointers |
| Disk.LowByteFirst | P5/410-14c-P5-supp-code/MP5_Sources/file_system.C:429-431 | pointers lie on disk low byte first, negative ones in two's complement |
| FreeList.LeastFreeIsLeast | P5/410-14c-P5-supp-code/MP5_Sources/file_system.C:235-319 | the scan result is the least free number of its range, -1 exactly when none is free |
| FreeList.MarkUsedClearsOne | P5/410-14c-P5-supp-code/MP5_Sources/file_system.C:247-247 | allocation clears that block's bit only |
| FreeList.MarkFreeSetsOne | P5/410-14c-P5-supp-code/MP5_Sources/file_system.C:330-353 | freeing sets that block's bit only |
| FreeList.MarkFreeUndoes | P5/410-14c-P5-supp-code/MP5_Sources/file_system.C:330-353 | freeing an allocated block restores the list bit for bit |
| FreeList.MountReproduces | P5/410-14c-P5-supp-code/MP5_Sources/file_system.C:370-373 | a Mount of a coherent disk reads back the in-memory list |
| FileSystem.FileSystem.WriteFreeList | P5/410-14c-P5-supp-code/MP5_Sources/file_system.C:248-251 | the list is written through to blocks 0..4 |
| FileSystem.FileSystem.GetInode | P5/410-14c-P5-supp-code/MP5_Sources/file_system.C:235-277 | the shifting-mask scan takes the least free number up to the last inode, 164, clears exactly its bit and writes it through; -1 and no change exactly when none is free |
| FileSystem.FileSystem.GetBlock | P5/410-14c-P5-supp-code/MP5_Sources/file_system.C:279-319 | the scan, starting inside word 5, takes the least free data block, 165 to 20479, clears exactly its bit and writes it through; -1 and no change exactly when none is free |
| FileSystem.FileSystem.FreeInode | P5/410-14c-P5-supp-code/MP5_Sources/file_system.C:321-339 | the bit of inode number file + 5 is set and written through; -1 and 160 up are ignored |
| FileSystem.FileSystem.FreeBlock | P5/410-14c-P5-supp-code/MP5_Sources/file_system.C:341-359 | the bit of the block is set and written through; numbers below 160 are ignored |
| FileSystem.FileSystem.Mount | P5/410-14c-P5-supp-code/MP5_Sources/file_system.C:361-375 | refuses small disks, else the list is what the disk holds |
| FileSystem.Format | P5/410-14c-P5-supp-code/MP5_Sources/file_system.C:377-397 | only blocks 0..4 change, and decode to a list with everything else free |
| FileSystem.FormatAndMount | P5/410-14c-P5-supp-code/MP5_Sources/file_system.C:361-397 | leaves a valid, empty file system |
| FileRuns.FormattedIsValid | P5/410-14c-P5-supp-code/MP5_Sources/file_system.C:377-397 | a formatted volume satisfies the invariant and has no files |
| FileSystem.FileSystem.CreateFile | P5/410-14c-P5-supp-code/MP5_Sources/file_system.C:420-432 | one block is allocated and a fresh inode is written |
| FileSystem.FileSystem.DeleteFile | P5/410-14c-P5-supp-code/MP5_Sources/file_system.C:435-461 | all pointers and the inode are given back; false exactly when there is no such file |
| File.File.constructor | P5/410-14c-P5-supp-code/MP5_Sources/file_system.C:15-24 | a new file is the specified creation on the volume |
| File.File.Read | P5/410-14c-P5-supp-code/MP5_Sources/file_system.C:39-96 | returns the lesser of n and what is left of the file behind the position, and copies exactly those bytes |
| File.File.Write | P5/410-14c-P5-supp-code/MP5_Sources/file_system.C:98-197 | first, middle and last blocks together implement the specified write, also when the last block is missing |
| File.File.Reset | P5/410-14c-P5-supp-code/MP5_Sources/file_system.C:199-201 | the position is 0 |
| File.WriteResetRead | P5/410-14c-P5-supp-code/MP5_Sources/file_system.C:39-201 | Write of 1..65536 bytes, Reset, Read: both return n and the bytes are those written |
| Volume.FirstBlockWritten | P5/410-14c-P5-supp-code/MP5_Sources/file_system.C:115-141 | the first block holds its part of the buffer and keeps what is before it |
| Volume.NextBlockWritten | P5/410-14c-P5-supp-code/MP5_Sources/file_system.C:143-190 | each further block is the least free one at its turn and holds its part of the buffer |
| Volume.InodeWritten | P5/410-14c-P5-supp-code/MP5_Sources/file_system.C:162-191 | writing the inode records those pointers and touches nothing else |
| FileTheorems.CreateFacts | P5/410-14c-P5-supp-code/MP5_Sources/file_system.C:412-433 | the new file takes the least free inode and the least free data block, and no other bit or block changes |
| FileTheorems.CreateKeepsValid | P5/410-14c-P5-supp-code/MP5_Sources/file_system.C:412-433 | creating keeps coherence and ownership |
| FileTheorems.CreateIsIsolated | P5/410-14c-P5-supp-code/MP5_Sources/file_system.C:412-433 | every other file reads the same |
| FileTheorems.WriteKeepsValid | P5/410-14c-P5-supp-code/MP5_Sources/file_system.C:98-197 | writing keeps coherence and ownership: pointers are in-use data blocks, none in two slots |
| FileTheorems.WriteIsIsolated | P5/410-14c-P5-supp-code/MP5_Sources/file_system.C:98-197 | every other file reads the same |
| FileTheorems.WriteExtends | P5/410-14c-P5-supp-code/MP5_Sources/file_system.C:143-191 | the file has as many blocks as before or as were written |
| FileTheorems.WrittenContent | P5/410-14c-P5-supp-code/MP5_Sources/file_system.C:98-197 | bytes before the start are kept, the buffer follows, later blocks are kept, and so is the rest of the first block behind a short write at a position above 0 |
| FileTheorems.WriteReturnsIff | P5/410-14c-P5-supp-code/MP5_Sources/file_system.C:127-182 | with a block for the last part Write returns n exactly when the byte before the position is not NUL, else n + 1 from one byte earlier; without one it returns n only behind a NUL when one byte is left over |
| FileTheorems.ReadReturnsWhatWasWritten | P5/410-14c-P5-supp-code/MP5_Sources/file_system.C:39-201 | reading n bytes back from position 0 gives the buffer |
| FileTheorems.DeleteFacts | P5/410-14c-P5-supp-code/MP5_Sources/file_system.C:435-461 | exactly the inode's and its pointers' bits are set |
| FileTheorems.DeleteKeepsValid | P5/410-14c-P5-supp-code/MP5_Sources/file_system.C:435-461 | deleting keeps coherence and ownership |
| FileTheorems.DeleteIsIsolated | P5/410-14c-P5-supp-code/MP5_Sources/file_system.C:435-461 | every other file reads the same |
| FileRuns.StepKeepsValid | P5/410-14c-P5-supp-code/MP5_Sources/file_system.C:98-461 | every operation keeps the invariant and the files it is not about |
| FileRuns.RunIsSafeAndIsolated | P5/410-14c-P5-supp-code/MP5_Sources/file_system.C:98-461 | so does every run of create, write, delete and remount |
| FileRuns.RemountChangesNothing | P5/410-14c-P5-supp-code/MP5_Sources/file_system.C:361-375 | after any run a fresh Mount reads back the list in memory |
| FileRuns.ListedBlocks | P5/410-14c-P5-supp-code/MP5_Sources/file_system.C:143-191 | after a first write the inode lists distinct blocks that were free |
| FileRuns.BlocksTaken | P5/410-14c-P5-supp-code/MP5_Sources/file_system.C:143-191 | exactly those and the inode are missing from the list |
| FileRuns.BlocksTakenCount | P5/410-14c-P5-supp-code/MP5_Sources/file_system.C:98-197 | they number max(1, ceil(n / 512)) and one inode |
| FileRuns.WriteTakes | P5/410-14c-P5-supp-code/MP5_Sources/file_system.C:143-191 | a write of w blocks takes exactly w - 1 from the free list, whatever the file had |
| FileRuns.FileLifeRestoresBitmap | P5/410-14c-P5-supp-code/MP5_Sources/file_system.C:15-461 | create, one write, delete restores the list bit for bit |
| LostBlocks.WriteLoses | P5/410-14c-P5-supp-code/MP5_Sources/file_system.C:143-191 | a write loses exactly the blocks after the first that it replaces: min(w, old blocks) - 1 of them stay marked used with no file pointing to them |
| LostBlocks.DeleteReclaimsIff | P5/410-14c-P5-supp-code/MP5_Sources/file_system.C:143-461 | deleting after a write gives the free list that deleting before it gives, exactly when w is 1 or the file had at most one block |
| LostBlocks.CreateLosesNothing | P5/410-14c-P5-supp-code/MP5_Sources/file_system.C:412-433 | creating loses no block |
| LostBlocks.DeleteLosesNothing | P5/410-14c-P5-supp-code/MP5_Sources/file_system.C:435-461 | deleting loses no block |
| LostBlocks.RunLoses | P5/410-14c-P5-supp-code/MP5_Sources/file_system.C:98-461 | over any run the blocks lost are those of its writes |
| LostBlocks.BlocksAreAccountedFor | P5/410-14c-P5-supp-code/MP5_Sources/file_system.C:98-461 | after any run from a fresh format the 20315 data blocks are the free ones, one for each slot in use, and the lost ones |
| File.WriteAfterNul | P5/410-14c-P5-supp-code/MP5_Sources/file_system.C:127-138 | one byte written behind a NUL: the call returns 2 and the NUL is overwritten |
| File.WriteOnFullDisk | P5/410-14c-P5-supp-code/MP5_Sources/file_system.C:167-182 | 513 bytes on a full disk: the call returns 512 |
| File.WriteTwice | P5/410-14c-P5-supp-code/MP5_Sources/file_system.C:143-191 | two blocks written twice: a block is lost |
| FirstFit.FirstFitIsLowest | P3/410-14c-P3-supp-code/MP3/MP3_Sources/.goutputstream-2X47NX:70-137 | the chosen gap is the lowest place with room, and none is chosen exactly when there is none |
| FirstFit.InsertKeepsSorted | P3/410-14c-P3-supp-code/MP3/MP3_Sources/.goutputstream-2X47NX:84-102 | the new region keeps the order and the pool's bounds |
| FirstFit.InsertTakes | P3/410-14c-P3-supp-code/MP3/MP3_Sources/.goutputstream-2X47NX:84-102 | it takes exactly its own pages |
| FirstFit.RemoveKeepsSorted | P3/410-14c-P3-supp-code/MP3/MP3_Sources/.goutputstream-2X47NX:150-177 | a release keeps the order |
| FirstFit.RemoveFrees | P3/410-14c-P3-supp-code/MP3/MP3_Sources/.goutputstream-2X47NX:151-153 | it frees exactly the pages of that region |
| FirstFit.RemoveUndoesInsert | P3/410-14c-P3-supp-code/MP3/MP3_Sources/.goutputstream-2X47NX:84-177 | releasing what was just allocated gives back the same regions |
| FirstFit.RunKeepsRegionsDisjoint | P3/410-14c-P3-supp-code/MP3/MP3_Sources/.goutputstream-2X47NX:40-180 | over any permitted run regions are ordered, inside the pool and page-disjoint |
| VmPool.Region.constructor | P3/410-14c-P3-supp-code/MP3/MP3_Sources/.goutputstream-2X47NX:7-15 | a region takes one page more than the whole pages of its size |
| VmPool.VmPool.constructor | P3/410-14c-P3-supp-code/MP3/MP3_Sources/.goutputstream-2X47NX:16-35 | an empty pool: no region, no page taken |
| VmPool.VmPool.Allocate | P3/410-14c-P3-supp-code/MP3/MP3_Sources/.goutputstream-2X47NX:40-138 | list and bitmap agree before and after; the address is 0 exactly when no page has room, else that of the lowest page with room, and exactly the request's pages from there on become taken |
| VmPool.VmPool.InsertBehind | P3/410-14c-P3-supp-code/MP3/MP3_Sources/.goutputstream-2X47NX:86-90 | the doubly linked list is the old one with the region behind its neighbour |
| VmPool.VmPool.Gap | P3/410-14c-P3-supp-code/MP3/MP3_Sources/.goutputstream-2X47NX:73-79 | the page arithmetic and the counting loop measure the gap |
| VmPool.VmPool.Release | P3/410-14c-P3-supp-code/MP3/MP3_Sources/.goutputstream-2X47NX:140-180 | the region with that start address leaves list and bitmap; otherwise nothing changes |
| VmPool.VmPool.Unlink | P3/410-14c-P3-supp-code/MP3/MP3_Sources/.goutputstream-2X47NX:157-174 | the doubly linked list is the old one without that region |
| VmPool.VmPool.IsLegitimate | P3/410-14c-P3-supp-code/MP3/MP3_Sources/.goutputstream-2X47NX:183-195 | true exactly for addresses of the pool on a page of some region; in terms of bytes right exactly outside the slack behind the regions |
| FirstFit.PageTestIsExactIff | P3/410-14c-P3-supp-code/MP3/MP3_Sources/.goutputstream-2X47NX:183-195 | the page test agrees with the bytes of regions exactly outside the slack behind them |
| FirstFit.SlackPasses | P3/410-14c-P3-supp-code/MP3/MP3_Sources/.goutputstream-2X47NX:183-195 | a region of two bytes: the third byte of its page passes |

## Left out

- Console, GDT, IDT, exception tables, interrupt controller and timer programming, port I/O, boot code, `spin_wait`.
- Translation caches and the cr0/cr3 accessors beyond the value of cr3; `register_vmpool`.
- The busy-wait locks of the file system and disk; `Format` on a small disk leaves its lock set.
- `File::Rewrite`, the reopening `File` constructor and `EoF`: they do not keep the ownership and length facts.
- P5's scheduler pre-emption and disk queue; the frame pools of P2 and P5 and the page table of P2.
- The memory pool behind `new` and `delete`.
- Segment loading and its faults in `pop ds` and `iret`; selectors are plain words.
- Threads created after the first dispatch are not part of `Preemption`'s runs; main creates all of them before it.
- File.File.Read: positions of 512 and above, where the offset leaves the first block, and n equal to 0.
- File.File.Write: the same, and running out of blocks in the middle part, where it writes to block number -1.
- File.File.constructor: a system without a free inode, where it writes an inode at block -1.
- FileSystem.FileSystem.CreateFile: the test of `LookupFile`, which indexes by 128 and compares with 1, and its FALSE result; the allocating branch is modelled, after a successful `get_inode`.
- FileSystem.FileSystem.FreeInode: file numbers below -5, which index before the free list.
- FileSystem.FormatAndMount: disks of fewer than 20480 blocks, which the free list does not describe; `Format` and `Mount` alone need five blocks.
- Scheduler.RoundRobinTimer.ThreadShutdown: `terminate` also deletes the thread object; its control block and stack stay in the model.
- VmPool.VmPool.constructor: a zero base address or size, and a pool that ends beyond the address space.
- VmPool.VmPool.Release: does not model the `free_page` calls (the draft passes the same page number each time), nor `delete`; releasing the first region or releasing from an empty pool follows a null pointer.
- VmPool.VmPool.Allocate: requests of fewer than two bytes and a first request larger than the pool; regions come from outside the pool, although the kernel routes `new` back into `allocate`; the later P3/mp3_Shiyang_Chen/vm_pool.C, which rounds sizes differently, is not modelled.
- VmPool.VmPool.Search: the test for space before the first region and the branch for a free page at the end of a region cannot be taken when list and bitmap agree, and are not written out.
