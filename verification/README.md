# Verified model of a small x86 kernel

A Dafny model of the stateful core of the kernel: its two-level round-robin scheduler, its page tables
and frame allocator, its heaps, its FAT file system with the ELF file loader on top, its text screen and
its string formatting.  A C function that changes state is a method over a class, an array or linked
objects; what it does is stated by a specification function on values, and the theorems are about those
functions: over single calls, over all runs, and between a representation and what it represents.

`dafny verify dfyconfig.toml` checks everything.

| files | subject |
|---|---|
| `SchedulerModel`, `SchedulerLatency`, `SchedulerChurn`, `SchedulerContext`, `SchedulerRemoval`, `SchedulerCalls`, `ThreadIndices` | the scheduler as a state machine: invariant of all runs, exact turns and latency bound, waiting while others come and go, whose stack pointer is restored and which removals break that, what each call means for who runs and when, thread indices |
| `Scheduler` | the same over pointers: circular doubly linked rings changed in place, each method taking the state machine's step |
| `Bits`, `Bitmap` | C's bit operators on words; the bitmaps of frames and page tables |
| `PhysicalMemory`, `PageTables`, `ProcessMemory`, `ProcessTeardown` | frame allocator, two-level page tables as a flat map, frames of a thread and of a whole process from start to end |
| `HeapModel`, `Heap` | first-fit free list with splitting and forward merging |
| `FatModel`, `Fat`, `FileNames`, `DirectoryModel`, `FatDirectory`, `ElfLoader` | table entries, cluster chains, 8.3 names, directories as maps, loading an executable |
| `Screen`, `Strings`, `Arguments` | text console, itoa, atoi and vsprintf, splitting the arguments of a process |

Conventions.  A C word is an integer below 2^32, and unsigned operations wrap explicitly.  `|`, `&`, `& ~`
and `<<` are recursive functions on the bits, with lemmas for the aligned cases the code uses.  The
memory of directories and page tables is an array of 1024 pages of 1024 words, because the kernel's
first 4 MB are identity mapped.  The disk is a sequence of sectors, and interrupts, allocation failures
and the stack pointers that arrive with interrupts are parameters.  Strings are bytes.

## What the code does where its intent is different

These are properties of the code as written; each is stated by the member named.

- `sched_remove_proc` moves `list` to the successor of the removed process, and the next switch files
  the caller's stack pointer there.  Some run after it, in which no further removal moves `list`, then
  makes `schedule` return a stack pointer that is not the resumed thread's own if and only if that
  successor is not the caller's process, and either the successor is not stopped or the caller's process
  is neither stopped nor the removed one (`SchedulerRemoval.RemovalExact`).  Interrupts alone are enough
  while scheduling is on (`SchedulerRemoval.BrokenByInterrupts`), and starting two processes and
  removing the second is a way there (`SchedulerRemoval.WrongContextReachable`).
- A new process always goes in front, so a thread can wait for any number of switches while others start
  processes (`SchedulerChurn.Starves`); `SchedulerChurn.WaitBound` is the bound by what comes and goes.
- `stop_thread` leaves `thread_list` on the unlinked thread until the next switch, and never counts
  `threads` down (`SchedulerContext.StoppedThreadGone`, `ThreadIndices.StartedApart`).
- When there is no memory for a `thread_t`, `start_thread` returns with scheduling switched off, and then
  nobody but its caller runs (`SchedulerCalls.NobodyElseRuns`).  Every other failure of `start_thread` and `start_proc` after
  `create_thread` uses up a pid (`Scheduler.Scheduler.StartProc`).
- `pmm_init` passes a number of words to a `memset` that counts bytes, so blocks from 2^18 on start out
  free (`PhysicalMemory.Pmm.constructor`).  It also counts the reserved blocks whether or not a region
  had freed them, so `used_blocks` is off by `Pmm.Drift`, which allocating and freeing then keep.
- With no block left `pmm_malloc` returns the address -4096 and not NULL (`PhysicalMemory.Pmm.Malloc`).
  `vmm_map` then maps block 0xFFFFF, and a later `vmm_unmap` marks that block free
  (`ProcessMemory.Memory.Map`, `ProcessMemory.Memory.ThreadLifeCycle`).  A frame taken by `vmm_map` is
  lost when no page table can be made (`ProcessMemory.Memory.Map`).
- Thread teardown unmaps a thread's pages from the process only.  `kern_dir` keeps its entries for the
  freed frames, except for the pages that `stack_fill` and, for a main thread, `heap_fill` took out of
  it before (`ProcessMemory.Memory.ThreadLifeCycle`).  In a kernel process that page of the stack was
  the thread's own: its frame is never given back.
- The per-thread offset is applied twice to a thread's heap; the pages are apart all the same
  (`ProcessMemory.ThreadsApart`).
- Splitting a heap block adds to a header pointer, so headers end up 16 times as far apart as the bytes
  between them.  Blocks never overlap, but a block lies inside the heap only under the condition of
  `HeapModel.InsideHeap`, and `HeapModel.OutsideHeap` is one that does not.  A split drops the list
  behind it and does not check that a second header fits: `HeapModel.SplitExact` says exactly when the
  list survives, and `HeapModel.OverwriteExact` exactly when the second header falls on another block:
  when the block that fits has just the length asked for and is not the last.
  `HeapModel.LiveHeaderOverwritten` is a short run that gets there.
- `to_dos_file_name` reads past the end of a name with a dot and fewer than two characters after it
  (`FileNames.DosReadsPastEnd`), and `to_normal_file_name` loses the dot of a name with eight characters
  in front of it (`FileNames.NormalUndoesDos`) or an extension of one (`FileNames.OneCharacter`).
- Loading an executable takes a frame for every page of a segment but gives the process the first one at
  every page, so the process has the frame taken for each page only if there is one page or blocks run
  out.  Each of the others is then mapped nowhere, unless an entry outside the segment's pages held it
  before (`ElfLoader.PlaceSegment`).
- `vmm_map_phys` gives a table it makes the flags of the page, and a table that is there keeps its own.  So
  user code reaches the pages of a thread or a segment only if their directory slot was empty before, or
  had a table that lets users in (`ProcessMemory.UserExactly`, `ElfLoader.PlaceSegment`).  Every such page is
  mapped in `kern_dir` first, with a table for the kernel only, and `create_address_space` copies tables with
  their flags: the pages of a later process under such a slot fault in user mode.
- `map_kernel` makes a new table for the page of `RETURN_ADDR` even where the directory has one, and what
  that one mapped is lost (`PageTables.Vmm.MapKernel`).
- `remove_proc` counts on `threads`, which `stop_thread` leaves alone, so it goes round to threads it
  has released before; they are then empty (`ProcessTeardown.ReleaseThreads`).
- A file that fails to validate stays mapped in `kern_dir`, its frames taken (`ElfLoader.LoadElf`).
- `itoa` indexes its digit table with negative remainders for the least int, and only then
  (`Strings.ReadsBeforeTable`), and `atoi` does not know the sign that `itoa` writes: of the negative ints
  above the least it reads back one, -2115098112 (`Strings.AtoiOfItoa`).
- The array of arguments is overrun exactly when the string has nine spaces or more, one at its end not
  counted (`Arguments.OverrunExact`).
- Backspaces at the first cell of the screen write in front of it (`Screen.OverrunExact`), and printing
  after an exactly full row can start a row too many (`Screen.TwoCalls`).

## Model

| member | source | states |
|---|---|---|
| SchedulerModel.ApplyGood | proc/sched.c:57-98 | every operation of the scheduler (interrupt, process and thread creation with each kind of failure, exit, stop, removal) keeps the run invariant: non-empty rings with exactly one main thread each, all pids distinct and already handed out, `threads` at least the ring's length |
| SchedulerModel.InitialGood | proc/sched.c:100-169 | what sched_init leaves satisfies the invariant |
| SchedulerModel.SwitchGood | proc/sched.c:57-78 | a switch keeps the invariant and puts every `thread_list` back on its ring |
| SchedulerModel.SpawnGood | proc/proc.c:45-101 | adding a process keeps the invariant; its pid is new |
| SchedulerModel.ForkGood | proc/thread.c:45-99 | starting a thread keeps the invariant; its pid is new |
| SchedulerModel.FailedStartGood | proc/thread.c:50-81 | the failures of start_thread, and those of start_proc after create_thread, keep the invariant |
| SchedulerModel.StopGood | proc/thread.c:104-130 | stop_thread keeps the invariant with `thread_list` off the ring |
| SchedulerModel.RemoveGood | proc/sched.c:90-98 | removal from a ring of at least two keeps the invariant |
| SchedulerModel.SwitchShape | proc/sched.c:68-70 | the skip loop ends on a process that is not stopped |
| SchedulerModel.Find | proc/sched.c:33-46 | the search stops at the first owner of a pid, and at none exactly when there is none |
| SchedulerLatency.SwitchServes | proc/sched.c:57-78 | seen from outside, a switch serves a queue of pid queues: the front thread of the front process runs and both go to the back |
| SchedulerLatency.SliceRunsOut | drivers/x86/pit.asm:46-53 | a slice ends after 11 ticks less those counted so far, after 1 from the tenth on, after 12 if the 8-bit counter is about to wrap |
| SchedulerLatency.ExactTurn | proc/sched.c:57-78 | which switch and which tick each waiting thread's turn comes at, exactly, whatever stack pointers arrive |
| SchedulerLatency.LatencyBound | proc/sched.c:57-78 | with m processes not stopped, every thread of one with t threads runs within m * t switches and 11 * m * t + 1 ticks, from any state and any tick value |
| SchedulerLatency.QueueNonEmpty | proc/sched.c:68-70 | there is someone to run exactly when some process is not stopped |
| SchedulerLatency.UpcomingLength | proc/sched.c:57-78 | the queue has one entry for each process not stopped |
| SchedulerChurn.Starves | proc/sched.c:80-88 | while the running thread can make calls and its process has not ended, there is no bound: for every n there is a run of n switches in which a waiting thread of a process that has not ended never runs |
| SchedulerChurn.WaitBound | proc/sched.c:57-98 | in every run in which a thread waits without running, fewer than (1 + r) * (m + c) * (t + f) switches happen: m processes not stopped and t threads in its own at the start, then c processes started, f threads started in its own and r removals; stops, ends and failures are free |
| SchedulerContext.StepConsistent | proc/sched.c:57-98 | each operation keeps saved stack pointers with their threads |
| SchedulerContext.RunConsistent | proc/sched.c:57-98 | the same over every run |
| SchedulerContext.TickReturns | drivers/x86/pit.asm:46-55 | an interrupt that does not end the slice returns the stack pointer it was given, to the thread it interrupted |
| SchedulerContext.ContextIntegrity | proc/sched.c:57-98 | in every run from sched_init, every timer interrupt, whether it switches or not and whether scheduling is on or off, returns exactly the stack pointer that the thread it goes back to was last interrupted at or born with |
| SchedulerRemoval.RemovalExact | proc/sched.c:90-98 | after a removal in a consistent state, some run of any calls and interrupts, in which no further removal moves `list`, makes a timer interrupt return a stack pointer that is not the last saved one of the thread it goes back to if and only if the removed process's successor is not the caller's, and either that successor is not stopped or the caller's process is neither stopped nor the removed one; whether scheduling is on does not matter |
| SchedulerRemoval.RemovalByCaller | proc/sched.c:90-98 | for a caller that is not stopped and does not remove itself, that is if and only if `list` moves off the caller |
| SchedulerRemoval.BrokenByInterrupts | proc/sched.c:57-98 | interrupts alone get there if and only if, besides, scheduling is on at the removal |
| SchedulerRemoval.WrongContextReachable | proc/sched.c:90-98 | from sched_init, for all stack pointers: start two processes, remove the second, and some interrupts later schedule() returns a context that is not the thread's own |
| SchedulerRemoval.StaleBreaks | proc/sched.c:64-77 | a thread that can run and is filed with a stack pointer that is not its last is, after some interrupts, resumed with it |
| SchedulerRemoval.CalmRun | proc/sched.c:57-98 | when what is filed wrongly can never run, every run of calls and interrupts in which no removal moves `list` hands back the right stack pointers |
| SchedulerContext.StoppedThreadGone | proc/thread.c:119-130 | after stop_thread one switch puts `thread_list` back on the ring, and the stopped thread is in no ring and never runs in any continuation |
| SchedulerContext.RunAbsent | proc/thread.c:28-42 | a pid that is in no ring never comes back in any run |
| SchedulerCalls.RunsAfterCall | proc/thread.c:95-135 | after every call that ends with sched_state(1), whatever state scheduling was in, each thread of a process not stopped runs within 11 * m * t + 1 ticks, m processes not stopped and t threads in its own |
| SchedulerCalls.ForkRuns | proc/thread.c:45-101 | a thread that start_thread has started in a process that has not ended, known by the pid returned, runs when its process's turn comes: within 11 * m + 1 ticks, m processes not stopped |
| SchedulerCalls.SpawnRuns | proc/proc.c:45-101 | a process that start_proc has started runs at the next switch, within 12 ticks |
| SchedulerCalls.SpawnQueues | proc/proc.c:45-101 | start_proc puts the new process in front of all that wait and moves nobody else |
| SchedulerCalls.ForkQueues | proc/thread.c:84-89 | start_thread puts the new thread in front of its process, which stays last, and moves nobody else |
| SchedulerCalls.StopQueues | proc/thread.c:104-135 | stop_thread takes the caller from the end of its process, a main thread its whole process, and moves nobody else |
| SchedulerCalls.EndQueues | proc/proc.c:217-236 | end_proc takes the caller's process and moves nobody else |
| SchedulerCalls.MembersExactly | proc/sched.c:57-98 | after any operation exactly those pids are on a ring that were before, one more after a start, without the one that stops itself, without those of a process removed |
| SchedulerCalls.FlagAndPids | proc/thread.c:28-42 | over every run: scheduling is on or off as the last call that touches it left it, and pids are handed out one by one, to the starts that fail after create_thread too |
| SchedulerCalls.NobodyElseRuns | proc/thread.c:46-55 | after a start_thread that finds no memory for a thread_t nobody but the caller runs, whatever interrupts follow |
| SchedulerCalls.EndedNeverRuns | proc/proc.c:217-236 | after end_proc no thread of the process runs again in any run |
| SchedulerCalls.StopMeans | proc/thread.c:104-135 | after stop_thread the caller never runs again in any run; a main thread takes its whole process with it, any other leaves the process and the rest of the ring as they were |
| SchedulerCalls.RetiredNeverRuns | proc/sched.c:57-98 | a pid that is on no ring, or only on rings of stopped processes, never runs again in any run |
| ThreadIndices.RunOrigin | proc/thread.c:84-84 | in every run the thread count of a process, known by its main thread, goes up by exactly the threads it starts; stops and failed starts do not change it |
| ThreadIndices.CountSinceStart | proc/thread.c:84-84 | at any time the count of a process that start_proc started is one more than the threads it has started since |
| ThreadIndices.StartedApart | proc/thread.c:60-84 | threads one process starts at any two times get different indices, and pages apart from each other's and from the main thread's |
| Scheduler.Scheduler.constructor | proc/sched.c:100-169 | sched_init's rings of one, with its process's page directory and its thread's kernel stack loaded |
| Scheduler.Scheduler.Schedule | proc/sched.c:57-78 | over the pointers: exactly the state machine's step; it returns the stack pointer it was given while the slice lasts, and that of the thread switched to when it ends, whose kernel stack and page directory are then loaded |
| Scheduler.Scheduler.SwitchThread | proc/sched.c:63-77 | saving, turning the thread ring, skipping stopped processes, as one switch |
| Scheduler.Scheduler.SkipStopped | proc/sched.c:68-70 | the do-while ends at the first process not stopped, and its precondition is when it ends |
| Scheduler.Scheduler.Interrupt | drivers/x86/pit.asm:46-55 | the 8-bit increment and the call of schedule when scheduling is on; the stack pointer it was given comes back when the slice goes on or scheduling is off |
| Scheduler.Scheduler.GetProcById | proc/sched.c:33-46 | the owner of a pid, or NULL exactly when nobody owns it |
| Scheduler.Process.HasThread | proc/sched.c:36-42 | `threads` steps along `next` meet every thread of the process, unlinked one included |
| Scheduler.Scheduler.SchedAddProc | proc/sched.c:80-88 | links a process in after `list`: the rings stay circular and doubly linked and the count is right |
| Scheduler.Scheduler.CreateThread | proc/thread.c:28-42 | a fresh pid and a ring of one, or NULL and no pid when there is no memory |
| Scheduler.Scheduler.StartProc | proc/proc.c:45-101 | a new process with one thread enters the ring, or PROC_STOPPED with nothing changed or a pid spent |
| Scheduler.Scheduler.StartThread | proc/thread.c:45-99 | the three outcomes and what each leaves: scheduling off, a pid spent, or a thread linked in after the running one with scheduling on; SchedulerCalls.ForkRuns says when it runs |
| Scheduler.Process.InsertThread | proc/thread.c:84-89 | the four link assignments insert into the ring |
| Scheduler.Process.UnlinkRunning | proc/thread.c:121-122 | the two link assignments take the running thread out and leave `thread_list` pointing at it |
| Scheduler.Scheduler.StopThread | proc/thread.c:104-130 | stop_thread takes the state machine's step |
| Scheduler.Scheduler.EndProc | proc/proc.c:217-236 | end_proc stops the process and leaves its rings |
| Scheduler.Scheduler.SchedRemoveProc | proc/sched.c:90-98 | unlinks the owner and moves `list` to its successor; on a ring of one the count comes apart from the ring; what is loaded is the stack and the directory of `list` still exactly when nobody or the last process of the ring was removed |
| Bits.OrBit | mm/mm.c:57-59 | `or` sets a bit when either operand has it |
| Bits.AndNotBit | mm/mm.c:64-66 | `and not` clears exactly the bits of the mask |
| Bits.AllOnes | mm/mm.c:73-73 | the full-word test of the scan means that all 32 bits are set |
| Bitmap.SetBit | mm/mm.c:57-59 | marks one block and no other |
| Bitmap.UnsetBit | mm/mm.c:64-66 | unmarks one block and no other |
| Bitmap.FirstFree | mm/mm.c:71-85 | the scan that skips full words finds the least clear bit, or -1 exactly when there is none |
| PhysicalMemory.Pmm.constructor | mm/mm.c:31-52 | after pmm_init a block is free exactly when it is at or above block 1025 and usable by the memory map, or above the memory the memset reached; the counter, and the size in KB that it comes to |
| PhysicalMemory.UsableIs | mm/mm.c:42-50 | which blocks the memory map makes usable, by the addresses and lengths of its entries of kind 1, and how many are counted |
| PhysicalMemory.Pmm.InitReg | mm/mm.c:90-99 | which blocks are freed, and block 0 is taken again |
| PhysicalMemory.Pmm.DeinitReg | mm/mm.c:104-117 | which blocks are reserved |
| PhysicalMemory.Pmm.Preset | mm/mm.c:37-37 | the memset reaches a quarter of the map |
| PhysicalMemory.Pmm.Malloc | mm/mm.c:122-129 | the least free block is taken, never one below 1025 nor one in the last, partial word of the map; when none is left, -4096 is returned and the counter drifts; either way a step of the run theorems below |
| PhysicalMemory.Pmm.Free | mm/mm.c:134-139 | gives a block back unless it is the kernel's; the counter stays in step exactly when the block was taken; a step of the run theorems below |
| PhysicalMemory.ReservedThroughout | mm/mm.c:122-139 | blocks 0 to 1024 stay reserved in every run of allocations, refused ones and frees |
| PhysicalMemory.TakenUntilFreed | mm/mm.c:122-139 | in every such run a block stays taken until it is freed |
| PhysicalMemory.NeverTwice | mm/mm.c:122-139 | in no such run is a block handed out twice without a free in between |
| PageTables.Indices | mm/vmm.c:142-147 | the shifts pick the high and the low half of the page number |
| PageTables.Combined | mm/vmm.c:146-146 | an aligned frame or-ed with flags keeps both |
| PageTables.CloneAddress | mm/vmm.c:166-176 | the clone loop's address does not overflow and indexes slot i in turn i, although it steps by 0x401000 |
| PageTables.FlagsOfIs | mm/vmm.c:167-168 | the shifts keep a slot's low 12 bits |
| PageTables.Vmm.constructor | mm/vmm.c:48-54 | vmm_init maps the first 4 MB to themselves and the return page, and nothing else; the processor finds the first 4 MB writable by the kernel only and the return page by user code too, every other page faults, and 510 tables are left |
| PageTables.Vmm.MapKernel | mm/vmm.c:59-80 | on any directory: the first 4 MB mapped to themselves, with a table, present and writable, taken only if there is none; then a new table, for users too, with the return page alone, whatever was there; each where the pool has a table, and nothing else of any space changes |
| PageTables.Vmm.GetPhysAddr | mm/vmm.c:153-157 | the frame last mapped at the page, by the flat map |
| PageTables.Vmm.PageTableMalloc | mm/paging.c:30-39 | a cleared page of the pool, pages 512 to 1023, that no directory uses, or NULL exactly when the pool is exhausted; no translation changes |
| PageTables.Vmm.CreatePageTable | mm/vmm.c:101-107 | fills a slot with an empty table; the pages of a table the slot had before are unmapped, no other translation changes |
| PageTables.Vmm.SetEntry | mm/vmm.c:146-146 | writing one entry changes the translation of one page of one space |
| PageTables.Vmm.MapPhys | mm/vmm.c:136-148 | the flat map gets exactly the one new entry, also when a table is made on the way; that table is entered with the page's flags and no other slot changes; the processor finds the page as its two entries let it and every other page where it was; it fails exactly when a table is needed and none is left, and then nothing changes |
| PageTables.Vmm.UnmapPhys | mm/vmm.c:220-224 | exactly the one page is unmapped |
| PageTables.Vmm.TablesDistinct | mm/vmm.c:101-107 | no two slots of any spaces share a table |
| PageTables.Vmm.CopyTable | mm/vmm.c:172-172 | the memcpy copies one table's translations and disturbs no other |
| PageTables.Vmm.CloneSlot | mm/vmm.c:166-176 | one turn of the clone loop |
| PageTables.Vmm.CreateAddressSpace | mm/vmm.c:162-179 | the processor finds every page of the new space where it finds it in kern_dir, with the same permissions, a fault for a fault; no other space changes; and it succeeds exactly when the pool has more pages than kern_dir has present entries |
| PageTables.FirstSpace | mm/vmm.c:48-179 | vmm_init and then create_address_space succeed, and the new space has the first 4 MB at themselves for the kernel to write and the return page for users, and faults everywhere else |
| PageTables.Vmm.WalkIsFlat | mm/vmm.c:136-157 | the processor's walk through directory and table ends at the entry the flat map holds, with the permissions of both |
| PageTables.Vmm.FaultsExactly | mm/vmm.c:101-107 | where all tables are entered as present, a page faults if and only if its own entry is not present, and else leads to its frame |
| ProcessMemory.Memory.Map | mm/vmm.c:112-131 | takes a free frame, or none when none is left, and maps it; a table made on the way is entered with the flags of the page, and the processor finds the page as its two entries let it; which slot needs a page table decides success exactly |
| ProcessMemory.Memory.Unmap | mm/vmm.c:205-215 | clears the entry of a page that has a frame and gives the frame back unless it is the kernel's; an entry without a frame stays |
| ProcessMemory.Memory.UnmapRun | proc/proc.c:255-257 | a loop of vmm_unmap over any number of pages, round the end of the address space if need be and after any others: exactly the entries of its pages that hold a frame are cleared, and exactly those frames that are not the kernel's are given back and counted |
| ProcessMemory.Memory.MapShared | proc/proc.c:111-112 | one frame for kern_dir, and for the process the frame kern_dir then has at an address; it succeeds exactly when the pool has a page for each of the two slots that is empty, one if they are the same, and what a failure leaves mapped |
| ProcessMemory.Memory.BuildStack | proc/proc.c:106-124 | the answers of two pmm_malloc are mapped in both directories at the thread's two stack pages, and nothing else, for any addresses and also when blocks run out; it succeeds exactly when the pool has a page for every distinct empty slot of the pages, and otherwise stops at the first page it cannot pay for, with what of that page it could |
| ProcessMemory.Memory.BuildHeap | proc/proc.c:129-144 | the same for the four heap pages |
| ProcessMemory.Memory.FillHeap | proc/proc.c:173-173 | heap_fill takes the first heap page out of kern_dir and changes no other page |
| ProcessMemory.Memory.FillStack | proc/proc.c:181-211 | the two stack pointers after 3 and 16 words, and kern_dir gives up the page the user stack pointer is on, and no other |
| ProcessMemory.Memory.BuildThread | proc/proc.c:68-78 | succeeds if and only if the pool has a page for every distinct empty slot of kern_dir and the process among the six pages; then every page of every space is as given: the six frames visible in both directories, but for the pages heap_fill and stack_fill take out of kern_dir; user code reaches each of the six pages as far as the slot's table lets it; a failure loses the frames taken so far |
| ProcessMemory.UserExactly | mm/vmm.c:136-148 | user code is kept from a page of its own, whose entry lets it in, if and only if the directory slot had a table before that was not entered as present and for users |
| ProcessMemory.BuiltFlags | proc/proc.c:111-138 | stack and heap are entered in the process as present, writable and for users (7), and in kern_dir for the kernel only (3) |
| ProcessMemory.FilledPages | proc/proc.c:173-211 | which pages kern_dir gives up, by addresses: that of the twelfth byte below the end of the first stack page, and for a main thread the first of the heap |
| ProcessMemory.Memory.ReleaseThread | proc/proc.c:253-257 | the six vmm_unmap calls, after any others, give back exactly the frames the process has on the thread's six pages and empty exactly these pages |
| ProcessMemory.Memory.ThreadLifeCycle | proc/thread.c:124-128 | building and releasing a thread, with six free blocks, restores the frame bitmap if and only if the pool has a page for every distinct empty slot and the process is not a kernel one, and then also the counter; every entry of every space afterwards: the process has none of the six pages, kern_dir keeps them but for the ones it gave up |
| ProcessTeardown.ReleaseThreads | proc/proc.c:249-262 | `threads` turns along the ring release every thread on it once, also when `threads` is more than the ring has |
| ProcessTeardown.RemoveProc | proc/proc.c:241-262 | the vmm_unmap calls of remove_proc: exactly the pages of the image and of all threads on the ring are emptied and exactly their frames given back |
| ProcessTeardown.PagesApart | proc/proc.c:108-139 | no thread of a process shares a page with the ones started before it |
| ProcessTeardown.BuildAll | proc/proc.c:68-78 | all threads of a process, start_proc's and those of start_thread one after the other, can be built if and only if the pool has a page for every distinct empty slot of their pages; then the process has exactly the frames taken on their pages |
| ProcessTeardown.ProcessLifeCycle | proc/proc.c:241-262 | building any number of threads and removing the process gives back, with enough blocks, exactly the frames the threads took and those the process had for its image, keeps the counter in step, empties these pages of the process, and changes no other space but kern_dir; the main thread is built with index 0 and the i-th started after it with i + 1 |
| ProcessMemory.PagesOfThread | proc/proc.c:108-130 | build_stack and build_heap put thread n on pages 6n, 6n + 1 and 12n + 2 to 12n + 5 after the image |
| ProcessMemory.ThreadsApart | proc/proc.c:108-139 | the pages of two threads of different index never meet |
| HeapModel.HeaderAt | mm/kheap.c:71-71 | where every header is: sixteen times the bytes before it away from the first |
| HeapModel.Apart | mm/kheap.c:62-84 | headers and payloads of different blocks never overlap and addresses increase |
| HeapModel.InsideHeap | mm/kheap.c:71-71 | a block lies inside the heap if and only if sixteen times the bytes before it leave it room |
| HeapModel.OutsideHeap | mm/kheap.c:71-71 | a heap of 64 KB in which one malloc(8192) puts the next header 0x20100 bytes behind the start |
| HeapModel.SplitExact | mm/kheap.c:69-80 | an allocation keeps the list sound and conserves its bytes if and only if the block that fits is the last and has room for a second header |
| HeapModel.OverwriteExact | mm/kheap.c:69-80 | the second header of an allocation meets another block's header or payload if and only if the block that fits has exactly the length asked for and is not the last; a live block if and only if the next one is live |
| HeapModel.ReleaseGood | mm/kheap.c:45-60 | a release with its forward merge always keeps the list sound |
| HeapModel.ReleaseTotal | mm/kheap.c:45-60 | a release conserves the heap's bytes and makes exactly the block's size free |
| HeapModel.ReleaseUndoesSplit | mm/kheap.c:45-84 | freeing the newest block restores the list as it was before the allocation |
| HeapModel.LiveHeaderOverwritten | mm/kheap.c:69-80 | a concrete run in which an allocation overwrites a live block's header |
| Heap.Heap.constructor | mm/kheap.c:30-39 | one free block of all but a header, with the magic number, and `used` counts its header |
| Heap.Heap.Malloc | mm/kheap.c:62-84 | on any heap its own calls can leave: the first block that fits is split, `used` grows by the length and a header as a word does, NULL exactly when none fits or `used` is full; a sound heap stays sound exactly when the split is clean |
| Heap.Heap.Free | mm/heap.c:67-83 | on any such heap, for a header on the list or dropped from it: only a live block changes anything, and it is released with the free blocks after it; a sound heap stays sound |
| Heap.Heap.MergeFree | mm/heap.c:76-81 | the merge loop swallows exactly the free blocks that follow |
| FatModel.Unpack12 | fs/fat.c:178-203 | offset, shift and mask give back every 12-bit entry of any packed table |
| FatModel.Unpack16 | fs/fat.c:182-211 | the same for 16-bit entries |
| FatModel.Unpack32 | fs/fat.c:185-222 | the same for the low 28 bits of 32-bit entries |
| Fat.Volume.FatRead | fs/fat.c:170-224 | delivers sector 31 + c of the disk for cluster c, then moves to the next cluster by the whole table, or sets eof at an end mark |
| Fat.Volume.WindowIsTable | fs/fat.c:189-195 | the two-sector window shows an entry as the whole table has it, also across a sector end |
| Fat.TableEntry12 | fs/fat.c:197-203 | on a volume whose table is packed FAT12 entries, fat_read sees entry c for every c |
| Fat.TableEntry16 | fs/fat.c:208-214 | the same for FAT16 |
| Fat.TableEntry32 | fs/fat.c:215-222 | the same for FAT32 |
| Fat.Ends12 | fs/fat.c:197-206 | on a volume of packed FAT12 entries, fat_read at cluster c moves to entry c if that is neither 0 nor at least 0xFF8, and else sets eof |
| Fat.Ends16 | fs/fat.c:208-214 | the same for FAT16 with 0xFFF8 |
| Fat.Ends32 | fs/fat.c:215-222 | the same for FAT32 with 0x0FFFFFF8 on the low 28 bits |
| Fat.PackedChain12 | fs/fat.c:170-206 | clusters linked by packed FAT12 entries, the last one with an end mark, are a chain as the loader and the directories read it |
| Fat.PackedChain16 | fs/fat.c:170-214 | the same for FAT16 |
| Fat.PackedChain32 | fs/fat.c:170-222 | the same for FAT32 |
| Fat.Volume.ChainUnique | fs/fat.c:170-224 | a cluster starts at most one chain |
| Fat.Volume.ChainAcyclic | fs/fat.c:170-224 | a chain that ends visits no cluster twice |
| ElfLoader.LoadElfFile | proc/elf.c:96-122 | the file is on exactly ceil(n / 8) newly mapped pages from 0x700 on, for the kernel to write, its sectors each once and in chain order, if and only if the pool has a page for every distinct empty slot of kern_dir they need; otherwise it stops at the first page it cannot have, after exactly the sectors before it; also when blocks run out |
| ElfLoader.ReadNext | proc/elf.c:115-117 | the j-th read adds the j-th cluster's sector, and eof is set at the last |
| ElfLoader.UnmapImage | proc/elf.c:85-88 | the loop gives back exactly the frames that were read into and unmaps exactly their pages |
| ElfLoader.ElfValidate | proc/elf.c:30-59 | accepts exactly the headers that begin as a 32-bit little-endian x86 ELF file of version 1 |
| ElfLoader.SegmentPages | proc/elf.c:137-142 | a segment is placed on exactly the pages of vaddr + j * 4096 with j * 4096 at most its bytes in the file, if its kind is 1 and it has bytes in memory |
| ElfLoader.PlaceSegment | proc/elf.c:143-160 | goes through if and only if the pool has a page for every distinct empty slot of the segment's pages; then one answer of pmm_malloc is taken per page, the process has the first one at every page and kern_dir none, and nothing else changes; user code reaches the pages as far as their slots' tables let it; the process has each page's own frame if and only if there is one page or the answers are all the same, and each further frame ends up mapped nowhere if and only if the entries that held it before were all on these pages; where it stops otherwise |
| ElfLoader.Relocate | proc/elf.c:137-162 | over all segments: goes through if and only if the pool has a page for every distinct empty slot of their pages; then exactly one frame per page is taken, and only the segments' pages of the two directories change, also when it stops |
| ElfLoader.PlaceImage | proc/elf.c:79-90 | placing the segments and giving the image back, as one change of frames and pages, with the same exact condition |
| ElfLoader.LoadElf | proc/elf.c:64-91 | succeeds if and only if the pool has a page for every distinct empty slot of the image and the segments and the file is a valid one; then all frames it was read into are given back, exactly the segments' frames are gone and only the image's and the segments' pages change, and user code reaches the segments' pages as far as their slots' tables let it; an invalid file leaves exactly its frames taken, each still mapped in kern_dir; the blocks taken and their count in every case |
| FileNames.ToDosFileName | fs/fat.c:74-94 | writes the directory name of any string, whose bytes DosBytes and LongName give |
| FileNames.DosOfGood | fs/fat.c:74-94 | for a base of 1 to 8 and an extension of 0, 2 or 3 ordinary characters that is the two parts shifted and padded, whatever follows in memory |
| FileNames.DosBytes | fs/fat.c:74-94 | byte by byte: 32 less than the character modulo 256 for the base from byte 0 and the extension from byte 8, and spaces elsewhere |
| FileNames.LettersUp | fs/fat.c:74-94 | small letters become the same capital letters, in both parts |
| FileNames.LongName | fs/fat.c:81-85 | a name without a dot in its first nine characters loses all but eight |
| FileNames.DosReadsPastEnd | fs/fat.c:87-91 | the result depends on memory beyond the string if and only if a dot is followed by fewer than two characters |
| FileNames.DosInjective | fs/fat.c:74-94 | different good names have different directory names |
| FileNames.ToNormalFileName | fs/fat.c:96-114 | writes the name to_normal_file_name is specified by, and spaces behind its NUL |
| FileNames.NormalUndoesDos | fs/fat.c:74-114 | reading a directory name back gives the name if and only if it has no extension or a base of at most 7 |
| FileNames.LettersDown | fs/fat.c:96-114 | capital letters of a directory are read back as the same small letters, with a dot before the extension when the base leaves room for it |
| FileNames.OneCharacter | fs/fat.c:96-114 | an extension of one character is read back without its dot |
| DirectoryModel.LookupIsMap | fs/fat.c:124-141 | in a directory with unique names fat_get_dir is lookup in a finite map, wherever the holes are |
| DirectoryModel.TouchIsInsert | fs/fat.c:143-168 | fat_touch is insert-if-absent and keeps names unique; every other name keeps its entry |
| DirectoryModel.DeleteIsRemove | fs/fat.c:246-260 | fat_delete removes the name and keeps every other entry |
| DirectoryModel.TouchThenDelete | fs/fat.c:143-260 | creating and deleting a file restores the directory if and only if all 32 bytes of the slot it took were 0 |
| DirectoryModel.TouchFindsAgain | fs/fat.c:157-157 | a file just created is found again if and only if its directory name has no NUL, or the bytes strcpy did not copy were there already |
| DirectoryModel.FreeSlot | fs/fat.c:153-165 | a slot is free exactly when there are fewer names than slots |
| DirectoryModel.RunIsRunOnNames | fs/fat.c:143-260 | any run of creations and deletions keeps names unique and acts as on a bounded set of names |
| FatDirectory.StrNCmp | lib/string.c:51-58 | the difference at the first place two strings differ, 0 exactly when they are equal |
| FatDirectory.CompareAt | lib/string.c:51-58 | the sign is that of the first difference, with bytes unsigned |
| FatDirectory.RootDirectory.FatGetDir | fs/fat.c:124-141 | the first slot with the name among the 14 * 16, with its sector left in the buffer and its number in `offset` |
| FatDirectory.RootDirectory.FatDirectory | fs/fat.c:267-285 | what is known about a name, by that slot's bytes |
| FatDirectory.DescribeIs | fs/fat.c:267-285 | of a slot with these fields on disk: bit 4 of the attributes, the first cluster and the size, low bytes first |
| FatDirectory.NewFile | fs/fat.c:143-168 | a file just made is found empty, at cluster 0 and not a directory, whatever its slot held before |
| FatDirectory.RootDirectory.DirAt | fs/fat.c:124-141 | slot k of the 224 is the 32 bytes from 32 * (k % 16) on of sector k / 16 |
| FatDirectory.RootDirectory.FatTouch | fs/fat.c:143-168 | the directory on disk becomes the specified one, the answer says whether a slot was taken, and sectors outside the directory stay |
| FatDirectory.RootDirectory.FatDelete | fs/fat.c:246-260 | the same for deletion |
| FatDirectory.NameSlot | fs/fat.c:157-159 | strcpy and the two assignments on one slot of a sector in the buffer |
| FatDirectory.FatOpenSubdir | fs/fat.c:287-318 | the lookup in the slots of all sectors of the directory's cluster chain |
| FatDirectory.GoodIsValid | fs/fat.c:74-94 | ordinary names are names for which the map theorems hold |
| Screen.CellIs | drivers/video/video.c:73-73 | the cell a signed char is written as |
| Screen.Console.Clear | drivers/video/video.c:99-104 | after clear the screen shows an empty sheet |
| Screen.Console.Scroll | drivers/video/video.c:90-97 | all rows move up by one over a blank last row |
| Screen.Console.Check | drivers/video/video.c:79-88 | wraps a full row and scrolls at the bottom |
| Screen.Console.PrintkString | drivers/video/video.c:48-77 | the screen stays a window on the last rows of the unbounded sheet and the memory in front of it is what the sheet says, for all text, backspaces included, as far as there is memory for them |
| Screen.OverrunExact | drivers/video/video.c:57-60 | printing leaves the memory in front of the screen alone all the way if and only if no backspace meets the cursor at the first cell |
| Screen.PlainText | drivers/video/video.c:71-74 | plain text runs over the rows unbroken, followed only by blanks |
| Screen.ReturnAndNewline | drivers/video/video.c:61-70 | after a carriage return text replaces the row from its start; a newline starts a blank row, one only after a full row too |
| Screen.Backspace | drivers/video/video.c:57-60 | a backspace puts a blank, white on black, in the cell before the cursor, which goes there |
| Screen.TwoCalls | drivers/video/video.c:48-77 | two prints that stay on the screen equal one print of both strings if and only if the first does not end in a full row or the second runs on into the next row before it starts another |
| Strings.DigitsAre | lib/string.c:74-99 | the digits written are the one minimal digit string with the number's value |
| Strings.WriteDigits | lib/string.c:84-87 | the do-while writes the digits last to first |
| Strings.ReverseInPlace | lib/string.c:93-98 | the second loop reverses in place |
| Strings.Itoa | lib/string.c:74-99 | sign and minimal digits for every int and bases 2 to 16; for the least int, what lies before the digit table |
| Strings.ReadsBeforeTable | lib/string.c:78-87 | what is written depends on the memory before the digit table if and only if the number is the least int |
| Strings.WrittenBefore | lib/string.c:84-87 | digit by digit, what is written then: the byte as far before the digit table as the digit is large |
| Strings.Atoi | lib/string.c:101-108 | the shifts and adds, each wrapping at 32 bits |
| Strings.AtoiSnoc | lib/string.c:101-108 | one more character: ten times the number so far and the char less 48, modulo 2^32, whatever char it is; those from 128 on are negative |
| Strings.AtoiExact | lib/string.c:101-108 | a string of decimal digits is read as its value if and only if that fits an int |
| Strings.AtoiOfItoa | lib/string.c:74-108 | of the ints above the least, atoi undoes itoa for exactly those that are not negative and for -2115098112 |
| Strings.Vsprintf | lib/string.c:150-205 | the output is the left-to-right rendering of format and arguments, whatever the ints are |
| Strings.PrintArg | lib/string.c:159-198 | each conversion prints its argument and nothing else |
| Strings.ConvertIs | lib/string.c:159-198 | %d and %i print every int above the least in base 10, %x in base 16, %b in base 2, %c the low byte and %s the string |
| Strings.Unknown | lib/string.c:159-198 | any other character after a percent sign, another one too, prints nothing and takes no argument |
| Strings.Characters | lib/string.c:74-99 | the digits are 0 to 9 and A to F, the sign a minus |
| Strings.RenderParts | lib/string.c:150-205 | a format in two parts prints the first with its arguments and the second with the rest |
| Strings.RenderPlain | lib/string.c:199-202 | a format without a percent sign stands for itself |
| Arguments.StrChr | lib/string.c:207-214 | the first occurrence, or NULL exactly when there is none |
| Arguments.HeapFill | proc/proc.c:149-171 | argv is the name and the split arguments and the loop ends, for any string and any memory behind argv |
| Arguments.OverrunExact | proc/proc.c:151-171 | the ten places of argv are overrun if and only if the string has nine spaces, not counting one at its end |
| Arguments.SplitIs | proc/proc.c:155-171 | the arguments are the one way to write the string, less one space at its end, as parts without spaces joined by single spaces |
| Arguments.SplitCount | proc/proc.c:155-171 | how many arguments a string has, by its spaces |

## Left out

- Port I/O, interrupt acknowledgement, the ATA, floppy, DMA, keyboard and mouse drivers, and all assembly but the counting and the call in the timer interrupt.
- GDT, IDT and TSS set-up, CHS conversion, the device and file system tables, windows, pixels, fonts, console commands and panic printing: single expressions or user interface.
- Interrupts inside a call: a call is one step, and what sched_state(0) keeps out until sched_state(1) is a tick.
- TLB and control registers, but for whose page directory and kernel stack a switch loads; that a write to a page table takes effect at once.
- page_table_free, delete_address_space and vmm_unmap_page_table: their indexes are wrong as written (mm/paging.c:78, mm/vmm.c:184-190), so giving tables back has no true statement; the pool only shrinks here.
- How image_base, image_size and eip come about (image_size is computed from the entry point, proc/elf.c:163): they are fields of a thread. Copying a segment's bytes, and reading the program headers out of the image: they are a parameter.
- fat_write, fat_mount and paths with a missing directory in the middle: they read fields nobody set or handle one sector only. EXFAT: fat_read uses an uninitialised offset.
- The memory map of the boot loader is a sequence of entries; truncated or over-long maps are not modelled.
- kfree(thread) in stop_thread and the use of that memory by the next switch: the unlinked thread keeps its fields here.
- kmalloc(NAME_LEN) allocates 11 bytes for a directory name of 12; the array here has 12.
- fork_eip and the copies of stack and heap contents in start_thread.
- SchedulerLatency.LatencyBound: does not cover processes and threads that come or go while a thread waits; SchedulerChurn.Starves shows that no such bound holds for them, and SchedulerChurn.WaitBound bounds the wait by their number.
- SchedulerContext.ContextIntegrity: does not cover runs with removals that move `list` off its caller; SchedulerRemoval.RemovalExact says exactly which such removal, after a run it covers, can lead to a wrong return, and does not go on to a second one.
- Scheduler.Scheduler.SchedRemoveProc: does not cover removal while the running thread is unlinked, because nothing runs then but a loop that waits for the next interrupt.
- ProcessMemory.Memory.BuildThread: does not cover threads whose stack or heap addresses wrap around, which BuildStack and BuildHeap do, nor do ThreadLifeCycle and ProcessTeardown.ProcessLifeCycle; that heap_fill and stack_fill write through page entries is not modelled, only which entries they remove.
- ElfLoader.LoadElf: does not model what follows when load_elf_file returns -1, which load_elf takes for a size of 0xFFFFFFFF pages, nor segments that overlap the image at 0x700000, whose program headers they would overwrite.
- ElfLoader.LoadElfFile: does not cover files of 512 MB and more.
- ProcessTeardown.RemoveProc: kfree of each thread and of the process is not modelled, so threads met again after they were freed keep their fields; sched_remove_proc is Scheduler.Scheduler.SchedRemoveProc.
- Heap.Heap.Malloc: does not model header addresses beyond 2^32, which the code would wrap around; the addresses here go on.
- Heap.Heap.Free: does not model pointers without a header in front of them.
- Screen.Console.PrintkString: does not model more backspaces than there is memory in front of the screen.
- Strings.Itoa: takes the memory before the digit table as given, and -INT_MIN as INT_MIN, which C leaves undefined and the kernel's compiler wraps.
- Strings.Vsprintf: does not model missing or mistyped arguments, which are undefined in C.
- Arguments.HeapFill: does not model the thread's heap: the copies are values, and the memory behind argv is more of the same array.
