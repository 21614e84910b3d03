# lambdaOS: a verified model of its memory management, scheduler, MADT parser and text screen

The project models the parts of the lambdaOS kernel whose correctness is hard to see and
proves what they are for.

**Paging** (`Bits`, `Entry`, `Page`, `Hierarchy`, `Translation`, `Mapping`, `Detour`, `Boot`,
`Rights`, `Tlb`, `Leftovers`, `Machine`, `ActiveTable`, `MemoryInit`, `Runs`). Physical memory is a
map from frames to tables of 512 entries; `Hierarchy.Walk` is the walk of the MMU (4-level paging, section 4.5 of the
Intel SDM volume 3A), and it gives the frame and the flags a page ends at. The code's
operations are given twice: as functions of memory and of the frames still to be allocated
(`Mapping`, `Detour`, `Boot`), about which the theorems are stated, and as methods of a
class `Machine` that do what the code does, that is read and write every table through its
recursive virtual address, which a cached translation or a walk resolves. The methods are
proved to compute the functions. The central invariant, `Hierarchy.Tree`, gives every table
one place in one hierarchy, so that no table is reached twice, apart from the recursive
slot 511.

**Frames and stacks** (`FrameAllocator`, `Separation`, `Stacks`). The bump allocator is
proved to hand out the usable frames in increasing order; the frames it will hand out are
the supply of the paging model, which gives the end-to-end statements about runs of
mapping operations and of stack allocations.

**Tasks** (`ProcessList`, `Scheduler`), **MADT parsing** (`Madt`) and the **text screen**
(`TextBuffer`) are modelled on their own.

## Findings

- `next_table_create` links a fresh frame before it zeroes it
  (src/arch/x86_64/memory/paging/table.rs:63-65). If hardware may cache any translation at
  any moment, words with the PRESENT bit left over in that frame can stay cached after
  zeroing. `Leftovers.MapCoherentIff` says exactly when a whole `map_to`, followed by the
  flush of the page or not, leaves nothing stale: every PRESENT word of a frame that becomes
  a table is in a P1 table of an inactive hierarchy, or stands at the page's own index and
  is just what `map_to` will store there; in a P1 table it may be any word at that index if
  the page is flushed. It already matters for the first mapping that `paging::init` makes: with
  a PRESENT word in the frame of the first P3 table, not on the way of the temporary page, the
  flush of that page does not help (`ActiveTables.LeftoverSurvivesFlush`, and
  `ActiveTables.LeftoverExample` for a concrete memory); `ActiveTables.FlushIsNeeded` is the case
  in which it does. The methods of `Machine` ask for no more than that (`Leftovers.Harmless`),
  call by call; a supply of frames without PRESENT words is enough for `memory::init`
  (`MemoryInit.CleanMemory`) and for every run of operations (`Runs.Execute`).
- `free_frames` counts multiboot frames that `allocate_frame` skips; it is exact if and only
  if none is left (`FrameAllocator.FreeFramesConserved`).
- USER_ACCESSIBLE on a page has no effect, since no link between tables carries it
  (`Rights.MapToGrants`).
- One error of `ProcessList::add` means that the table is full exactly if every pid from 1 to
  below the place where the search began is taken (`Processes.OneErrorFullIff`). As long as
  nothing is removed that is so (`Processes.OneErrorMeansFull`), and the kernel never calls
  `remove`; with removals it may not be (`Processes.OneErrorMayHideFreePid`), and then two errors
  in a row mean it (`Processes.TwoErrorsMeanFull`).
- `kill` of the process at the front of the queue runs it, without a stack
  (`Scheduler.KillingTheNextRunsIt`); the kernel only ever kills the current process.
- One MADT record of an unknown type or a wrong length makes `init` discard every list, and
  nothing else does (`Madt.DiscardedIff`).
- Backspace after a wrap does not take the line break back (`TextScreen.BackspaceUndoes`).

## Model

| member | source | states |
|---|---|---|
| Entries.EncodeBits | src/arch/x86_64/memory/paging/entry.rs:36-67 | bit by bit the word that set stores: PRESENT to GLOBAL in bits 0 to 8, NO_EXECUTE in bit 63, the frame number in bits 12 to 51, every other bit clear; it panics exactly if the frame does not fit |
| Entries.DecodeBits | src/arch/x86_64/memory/paging/entry.rs:20-33 | which bits of any stored word flags and pointed_frame read |
| Entries.EncodeRoundTrip | src/arch/x86_64/memory/paging/entry.rs:20-39 | reading the flags and the frame of a stored word gives back what was set, for every frame that fits; any other frame panics |
| Entries.FlagNumbers | src/arch/x86_64/memory/paging/entry.rs:42-67 | the flag sets the kernel uses as numbers: 1, 2, 3 for links between tables, 0x83 for the boot code's huge pages, 0 for an unused entry |
| Entries.OrFlags | src/arch/x86_64/memory/paging/entry.rs:42-67 | the union of two flag sets has the bits of either |
| Entries.OrIsSum | src/arch/x86_64/memory/paging/entry.rs:36-39 | the stored word is the bitwise or of the frame's address and the flags |
| Bits.OrBits | src/arch/x86_64/memory/paging/entry.rs:36-39 | a bit of the bitwise or is set exactly if it is set in one of the two numbers |
| Pages.ContainingAddress | src/arch/x86_64/memory/paging/mod.rs:54-63 | exactly the canonical addresses have a page, and it contains the address |
| Pages.LowIndices | src/arch/x86_64/memory/paging/mod.rs:70-81 | the four indices are the bits 27 to 35, 18 to 26, 9 to 17 and 0 to 8 of the page number |
| Pages.IndicesInjective | src/arch/x86_64/memory/paging/mod.rs:70-81 | the four 9-bit indices tell all canonical pages apart |
| Pages.PathInjective | src/arch/x86_64/memory/paging/mod.rs:70-81 | the same P1 table and last index mean the same page of the same hierarchy |
| Pages.ShiftOr | src/arch/x86_64/memory/paging/table.rs:34-43 | the address of the next table is the bitwise or of the truncated shift of a table's address and the index, and page aligned |
| Pages.TableAddressIsOr | src/arch/x86_64/memory/paging/table.rs:34-43 | hence every table address of the model is what the code's shift and or yield from the parent's address |
| Pages.TableAddressInWindow | src/arch/x86_64/memory/paging/table.rs:9-43 | the address computed for any table is canonical and its indices are 511 once per level below the table, then the table's path |
| Hierarchy.WindowEntry | src/arch/x86_64/memory/paging/table.rs:34-55 | the page a table is reached at is translated by the very entry that links the table |
| Hierarchy.RecursiveAddress | src/arch/x86_64/memory/paging/table.rs:9-55 | at every path the recursive address is canonical and the MMU sends it to the frame the parent's entry holds, also while slot 511 leads to an inactive P4 table |
| Translation.TranslateIsWalk | src/arch/x86_64/memory/paging/mapper.rs:36-76 | on every hierarchy mixing 4 KiB, 2 MiB and 1 GiB pages the code's translation is the MMU's, never faults on a table, and panics exactly at a misaligned huge frame |
| Translation.TranslateAddress | src/arch/x86_64/memory/paging/mapper.rs:29-33 | each byte of a canonical address goes to the same byte of the frame the MMU finds; any other address panics |
| Translation.BootIdentity | src/arch/x86_64/asm/boot.asm:25-54 | on the boot tables the code translates the first GiB to itself and nothing else outside the window |
| Mapping.CreateStep | src/arch/x86_64/memory/paging/table.rs:57-68 | creating a table adds at most one empty table at the right place, keeps the tree, and changes no translation |
| Mapping.MapToPoint | src/arch/x86_64/memory/paging/mapper.rs:80-89 | map_to is an exact point update: the page was untranslated and now has the frame and flags asked for, every other page of every hierarchy translates as before, the tables still form trees |
| Mapping.MapToExact | src/arch/x86_64/memory/paging/mapper.rs:80-89 | map_to succeeds exactly if the page is untranslated, the frame fits and a frame is left for every missing table; it takes just those; otherwise which panic: a translated page is already mapped if it has a P1 table and huge if not |
| Mapping.UnmapPoint | src/arch/x86_64/memory/paging/mapper.rs:104-122 | unmap takes away the translation of the page and no other; it succeeds exactly on 4 KiB translations, and otherwise which panic |
| Detour.MapAllGains | src/arch/x86_64/memory/paging/mapper.rs:80-101 | a run of map_to calls adds exactly the requested translations to one hierarchy |
| Detour.MapAllDistinct | src/arch/x86_64/memory/paging/mapper.rs:85-86 | a run that does not panic asked for distinct pages |
| Detour.MapAllSucceeds | src/arch/x86_64/memory/paging/mapper.rs:80-89 | distinct untranslated pages, fitting frames and three frames per call are enough for a run |
| Detour.SetRecursiveKeeps | src/arch/x86_64/memory/paging/mod.rs:174-186 | redirecting slot 511 to a P4 table is not seen outside the window and keeps the trees |
| Detour.WithFaithful | src/arch/x86_64/memory/paging/mod.rs:155-190 | with is a faithful detour: slot 511 leads back, every active translation outside the window is as before, the inactive hierarchy gained exactly the closure's mappings, every frame taken holds a new table |
| Detour.WithSucceeds | src/arch/x86_64/memory/paging/mod.rs:155-190 | what is enough for with not to panic |
| Detour.NewInactiveEmpty | src/arch/x86_64/memory/paging/mod.rs:228-241 | the new table is the root of an empty hierarchy disjoint from all others, whose translations stay |
| Boot.BootMapsCover | src/arch/x86_64/memory/paging/mod.rs:261-313 | the closure's calls are identity maps of exactly the frames of allocated sections, VGA buffer and multiboot structure |
| Boot.CoveredHolds | src/arch/x86_64/memory/paging/mod.rs:286-310 | these are the frames that hold an address of a section or of the structure |
| Boot.BootMapsDistinct | src/arch/x86_64/memory/paging/mod.rs:261-313 | the closure asks for distinct pages exactly if sections, VGA buffer and multiboot structure share no frame, and for low pages exactly if all their frames are low |
| Boot.InitExact | src/arch/x86_64/memory/paging/mod.rs:248-337 | after init the mapped pages outside the window are exactly those frames minus the old P4 table's, each mapped to itself, and every frame taken from the supply holds a table |
| Boot.InitRights | src/arch/x86_64/memory/paging/mod.rs:264-313 | the flags of every page that init maps, field by field: a section's page is writable and executable exactly if the section is, the VGA page is writable, a multiboot page has PRESENT alone |
| Boot.InitChecks | src/arch/x86_64/memory/paging/mod.rs:271-274 | init panics on an allocated section that does not start at a page, and on a frame beyond the low half |
| Boot.InitSucceeds | src/arch/x86_64/memory/paging/mod.rs:248-337 | init does not panic when the ranges share no frame, are low and contain the old P4 table, with enough frames |
| Boot.BootReady | src/arch/x86_64/asm/boot.asm:25-54 | the boot tables form a tree with a recursive slot and leave the temporary page free, so init can start from them |
| Rights.LastEntryDecides | src/arch/x86_64/memory/paging/table.rs:64-64 | since links are writable and executable, the last entry of a walk decides on writing and executing; ring 3 gets no access |
| Rights.MapToGrants | src/arch/x86_64/memory/paging/entry.rs:42-67 | map_to grants exactly the write and execute rights asked for, and none to ring 3 |
| Rights.TablesWritable | src/arch/x86_64/init.rs:48-52 | with write protection on, every table is writable at its recursive address |
| Rights.TemporaryWritable | src/arch/x86_64/memory/paging/temporary_page.rs:16-36 | and so is the temporary page |
| Tlb.ExtendsCoherent | src/arch/x86_64/memory/paging/mapper.rs:80-89 | entries set from not present keep every cached translation right, those of the window too: ignore is safe |
| Tlb.UnmapCoherent | src/arch/x86_64/memory/paging/mapper.rs:104-122 | after unmap only the page's own cached translation can be stale, and none while slot 511 leads to an inactive table |
| Tlb.WalkHeads | src/arch/x86_64/memory/paging/mapper.rs:80-89 | while every present entry is as it will be in the end, the P1 entry of one page and inactive P1 tables aside, whatever a walk finds for another page it will find in the end |
| Tlb.EntrySeen | src/arch/x86_64/memory/paging/table.rs:34-55 | every entry of a table but those of inactive P1 tables decides the translation of a page of its own |
| Tlb.LinkedExposes | src/arch/x86_64/memory/paging/table.rs:63-65 | every present word of a linked frame translates some page until the frame is zeroed |
| Tlb.LinkCoherentIff | src/arch/x86_64/memory/paging/table.rs:57-68 | for one next_table_create: whatever is cached between linking and zeroing, the cache ends up right exactly if the table cannot be read yet or the frame holds no PRESENT word |
| Leftovers.StoresHead | src/arch/x86_64/memory/paging/mapper.rs:80-89 | every store of map_to, those that zero tables included, keeps the course to the memory it ends with |
| Leftovers.MapCoherentIff | src/arch/x86_64/memory/paging/mapper.rs:80-89 | whatever hardware caches over the stores of a whole map_to, after the flush of the page, or without it, nothing stale is left exactly if every word left over in the fresh frames is harmless |
| ActiveTables.FirstMap | src/arch/x86_64/memory/paging/mod.rs:248-258 | the first mapping that init makes on the boot tables succeeds, in three fresh tables, and leaves nothing stale exactly if what these frames held is harmless |
| ActiveTables.LeftoverSurvivesFlush | src/arch/x86_64/memory/paging/table.rs:63-65 | at boot, a PRESENT word in the frame of the first P3 table off the page's way can stay cached although the page is flushed |
| ActiveTables.LeftoverExample | src/arch/x86_64/memory/paging/table.rs:63-65 | a concrete memory in which it does |
| ActiveTables.FlushIsNeeded | src/arch/x86_64/memory/paging/mapper.rs:140-147 | at boot, with the page's own word of the first P1 table as the only one left over, flushing is enough and ignoring the promise to flush is not safe |
| Leftovers.CleanWith | src/arch/x86_64/memory/paging/mod.rs:155-190 | with a supply without PRESENT words no mapping of with can do harm |
| Machines.Machine.Zero | src/arch/x86_64/memory/paging/table.rs:21-25 | zeroing through a virtual address clears the frame behind it and nothing else, and whatever is cached on the way is right in the end |
| Machines.Machine.NextTableCreate | src/arch/x86_64/memory/paging/table.rs:57-68 | through recursive addresses and the cache it does what the function does; the tables are kept in order and the operation on its course |
| Machines.Machine.TranslatePage | src/arch/x86_64/memory/paging/mapper.rs:36-76 | returns what the walk of the hierarchy in use gives, for every page, and panics exactly at a misaligned huge frame |
| Machines.Machine.MapTo | src/arch/x86_64/memory/paging/mapper.rs:80-89 | does what the function does, in an active or a redirected hierarchy; after the flush, or without one, the cache is right, under the exact condition for that |
| Machines.Machine.Map | src/arch/x86_64/memory/paging/mapper.rs:92-95 | the same with the allocator's next frame |
| Machines.Machine.Unmap | src/arch/x86_64/memory/paging/mapper.rs:104-122 | does what the function does, in an active or a redirected hierarchy; no stale translation stays cached |
| ActiveTables.MapTemporary | src/arch/x86_64/memory/paging/temporary_page.rs:16-36 | maps the temporary page, or panics if it is in use |
| ActiveTables.With | src/arch/x86_64/memory/paging/mod.rs:155-190 | the writes through recursive and temporary addresses and the flushes realise with; nothing stale is cached after it |
| ActiveTables.NewInactive | src/arch/x86_64/memory/paging/mod.rs:228-241 | realises InactivePageTable::new through the temporary page |
| ActiveTables.Switch | src/arch/x86_64/memory/paging/mod.rs:193-209 | the other hierarchy becomes active, memory is unchanged, nothing stale is cached |
| ActiveTables.InitPaging | src/arch/x86_64/memory/paging/mod.rs:248-337 | on the machine, init leaves exactly the stated identity mappings active, with the stated rights, and the cache right |
| ActiveTables.PowerOn | src/arch/x86_64/asm/boot.asm:25-63 | the machine the assembly code leaves satisfies the invariant, with the temporary page free, whatever the rest of RAM holds |
| MemoryInit.InitHeapExact | src/arch/x86_64/memory/mod.rs:62-86 | after memory::init the heap is writable, in pairwise distinct frames of the supply that hold no table and are not to be allocated again, every other page outside the window is as init left it, and the stack range is free exactly if no mapped frame has a number in it |
| MemoryInit.KernelExtent | src/arch/x86_64/memory/mod.rs:28-39 | the kernel's range is from the least start to the greatest end of the allocated sections |
| MemoryInit.CoveredReserved | src/arch/x86_64/memory/mod.rs:28-58 | the allocator that memory::init sets up never hands out a frame that init maps |
| MemoryInit.NoSharedFrames | src/arch/x86_64/memory/mod.rs:20-77 | end to end: after memory::init no two pages outside the window share a frame |
| MemoryInit.InitHeapSucceeds | src/arch/x86_64/memory/mod.rs:62-77 | when memory::init does not panic |
| MemoryInit.CleanMemory | src/arch/x86_64/memory/mod.rs:62-77 | with RAM free of PRESENT words where it may be allocated no mapping of memory::init can do harm |
| MemoryInit.InitMemory | src/arch/x86_64/memory/mod.rs:62-86 | the method does what the function does, panics included, and hands out the stack range |
| Runs.Execute | src/arch/x86_64/memory/paging/mod.rs:155-209 | any run of map and map_to with their flushes, unmap, InactivePageTable::new, with and switch, from a supply without PRESENT words: the machine does what the functions say and nothing stale is cached after any number of them |
| Runs.ApplyClean | src/arch/x86_64/memory/paging/mapper.rs:80-122 | no operation puts a PRESENT word into a frame still to be allocated |
| FrameAllocator.AreaHolds | src/arch/x86_64/memory/area_frame_allocator.rs:53-59 | the frames of an area are exactly those that hold one of its addresses, and what an area without addresses does |
| FrameAllocator.UsableExact | src/arch/x86_64/memory/area_frame_allocator.rs:29-47 | a frame can be allocated exactly if it holds an address of an area and is not between the first and the last frame of the kernel or of the multiboot structure |
| FrameAllocator.PickLeast | src/arch/x86_64/memory/area_frame_allocator.rs:51-59 | the area chosen reaches the next frame and starts no later than any other that does |
| FrameAllocator.FromHas | src/arch/x86_64/memory/area_frame_allocator.rs:96-117 | the frames to come are exactly the usable ones at or above the next free frame |
| FrameAllocator.FromIncreases | src/arch/x86_64/memory/area_frame_allocator.rs:113-117 | they come in strictly increasing order |
| FrameAllocator.AreaFrameAllocator.constructor | src/arch/x86_64/memory/area_frame_allocator.rs:29-48 | the first usable frame is discarded, all others will come |
| FrameAllocator.AreaFrameAllocator.ChooseNextArea | src/arch/x86_64/memory/area_frame_allocator.rs:51-71 | moving on to another area skips no usable frame |
| FrameAllocator.AreaFrameAllocator.AllocateFrame | src/arch/x86_64/memory/area_frame_allocator.rs:76-123 | terminates and returns the least usable frame not yet passed, which holds RAM, None exactly if there is none, for areas in any order, even overlapping |
| FrameAllocator.AreaFrameAllocator.FreeFrames | src/arch/x86_64/memory/area_frame_allocator.rs:130-151 | the count is the sum over the areas of the frames not the kernel's and not passed |
| FrameAllocator.FreeFramesConserved | src/arch/x86_64/memory/area_frame_allocator.rs:130-151 | over disjoint areas the count is the number of allocations to come plus the multiboot frames not passed; it is exact if and only if there are none of these |
| Separation.RunSeparates | src/arch/x86_64/memory/paging/mapper.rs:92-95 | over any run of map, map_to, unmap, InactivePageTable::new and with, on any hierarchies made so far, the data frames are pairwise distinct and distinct from every table of every hierarchy, and no frame of the supply is lost |
| Separation.NothingReserved | src/arch/x86_64/memory/area_frame_allocator.rs:96-119 | no data frame and no new table is a kernel or multiboot frame |
| Separation.AllocatorSupplies | src/arch/x86_64/memory/mod.rs:177-183 | the allocator's frames are a supply as the paging theorems need it |
| Stacks.NthSkips | src/arch/x86_64/memory/paging/mod.rs:109-121 | nth of a page range yields the page that many places on, or nothing |
| Stacks.CarveExact | src/arch/x86_64/memory/stack_allocator.rs:24-41 | a stack is granted exactly if size + 1 pages remain, above its guard page |
| Stacks.MapPagesRow | src/arch/x86_64/memory/mod.rs:73-77 | mapping pages in a row maps exactly these, with the flags asked for, to pairwise distinct frames of the supply that hold no table |
| Stacks.MapPagesSucceeds | src/arch/x86_64/memory/mod.rs:73-77 | untranslated pages and four frames per page are enough |
| Stacks.HeapThenStacks | src/arch/x86_64/memory/mod.rs:67-86 | the 125 pages of the heap from 0x40000000 on are mapped so, and the 101 pages of the stack range behind it are free exactly if they were |
| Stacks.AllocStackOk | src/arch/x86_64/memory/stack_allocator.rs:19-59 | one call: granted if and only if the pages remain, in frames of its own, a refusal changes nothing |
| Stacks.StackStepSucceeds | src/arch/x86_64/memory/stack_allocator.rs:19-59 | four frames for each page are enough for a call not to panic; a refusal needs none |
| Stacks.AllocStacksOk | src/arch/x86_64/memory/stack_allocator.rs:19-59 | over any run a call is granted exactly if the pages that the calls before it left are enough; the stacks have the sizes asked for, are fully mapped, disjoint, each above an unmapped guard page; all their pages have pairwise distinct frames that hold no table |
| Stacks.AllocStacksSucceed | src/arch/x86_64/memory/stack_allocator.rs:19-59 | four frames for each page that is taken up are enough for a run not to panic |
| Stacks.MapRow | src/arch/x86_64/memory/mod.rs:73-77 | the loop with its flushes does what the function does |
| Stacks.StackAllocator.AllocStack | src/arch/x86_64/memory/stack_allocator.rs:19-59 | the method does what the function does, and the rest of the range stays free |
| Processes.ProcessList.constructor | src/task/proc_list.rs:18-33 | the table holds the null process, which runs |
| Processes.ProcessList.Add | src/task/proc_list.rs:47-72 | terminates with the least free pid from the search start, or an error exactly if all from there on are taken |
| Processes.ProcessList.Remove | src/task/proc_list.rs:75-77 | the pid and only it leaves the table |
| Processes.AddNeverReissues | src/task/proc_list.rs:47-72 | in every run add returns neither pid 0 nor a pid in use |
| Processes.TwoErrorsMeanFull | src/task/proc_list.rs:48-58 | two errors in a row mean that every pid is taken |
| Processes.OneErrorFullIff | src/task/proc_list.rs:48-58 | whatever was removed, one error means that every pid is taken exactly if those below the place where its search began are |
| Processes.OneErrorMeansFull | src/task/proc_list.rs:48-58 | in runs without remove one error means that every pid is taken |
| Processes.OneErrorMayHideFreePid | src/task/proc_list.rs:48-58 | a run with remove in which add fails once although a pid is free |
| Scheduler.CoopScheduler.Create | src/task/coop_sched.rs:25-72 | a new suspended process with a stack, an error exactly if the search finds no pid |
| Scheduler.CoopScheduler.DoResched | src/task/coop_sched.rs:109-152 | the method does what the function does |
| Scheduler.CoopScheduler.DoKill | src/task/coop_sched.rs:83-99 | the method does what the function does |
| Scheduler.ReschedRotates | src/task/coop_sched.rs:109-152 | the front of the queue becomes current, the rest moves up, the process that was current is ready and joins the back unless it is free, and no other process changes |
| Scheduler.HappensKeeps | src/task/coop_sched.rs:83-152 | every timer interrupt, create and return keeps the invariant |
| Scheduler.ReachableInv | src/task/coop_sched.rs:83-152 | in every reachable state exactly one process is current, the queue has no duplicates, and the processes not free are the current one and the queue, each with its stack |
| Scheduler.NeverPanics | src/task/coop_sched.rs:126-141 | resched, and kill of the current process, find every process they look up |
| Scheduler.ReturnSwitches | src/task/process.rs:78-92 | a process that returns loses the CPU at once, and its stack |
| Scheduler.ReturnedNeverRuns | src/task/process.rs:78-92 | it is free, not current and not queued in every later state of every run |
| Scheduler.PlaceInQueue | src/task/coop_sched.rs:102-145 | a waiting process moves up one place per switch, whatever is created meanwhile |
| Scheduler.BecomesCurrent | src/task/coop_sched.rs:131-145 | the process at place k becomes current with exactly the switch number k and is not current before |
| Scheduler.RunsWithin | src/arch/x86_64/interrupts/irq.rs:20-27 | hence within 11 * (k + 1) timer interrupts |
| Scheduler.ElevenTicks | src/arch/x86_64/interrupts/irq.rs:20-27 | exactly every eleventh interrupt switches: the count of interrupts is eleven times that of the switches they made, up to the counter's change |
| Scheduler.KillingTheNextRunsIt | src/task/coop_sched.rs:83-99 | why kill must only be called on the current process |
| Scheduler.Timer.Handle | src/arch/x86_64/interrupts/irq.rs:10-30 | the handler is the interrupt event |
| Scheduler.SpawnProcess | src/syscall/process.rs:6-14 | the system call is the create event; it panics exactly if no pid is found |
| Scheduler.ProcessReturn | src/task/process.rs:78-92 | the return of a process keeps the invariant and switches |
| Madt.DataFollowsHeader | src/acpi/sdt.rs:7-41 | with the length stored least significant byte first at offset 4, the data is what follows the 36 bytes of the header |
| Madt.WithinTable | src/acpi/sdt.rs:31-41 | the parser reads no byte and yields no record beyond the length in the table's header |
| Madt.AcceptedInside | src/acpi/madt.rs:186-228 | an accepted record lies inside the table and the position moves past it |
| Madt.ZeroLengthRejected | src/acpi/madt.rs:191-228 | a record that does not advance the iterator is never accepted |
| Madt.MadtIter.Advance | src/acpi/madt.rs:185-237 | byte for byte the iterator does what the function says of the table's data, and every record it accepts ends inside the table |
| Madt.CollectAll | src/acpi/madt.rs:35-87 | the loop ends on every table, with what the function gives |
| Madt.RealTable | src/acpi/madt.rs:35-237 | in bytes: after eight bytes, records of types 0, 1, 2 and 4 with lengths 8, 12, 10 and 6 in any order give lists of exactly what follows type and length; more than 20 of type 0 or 10 of another are a panic |
| Madt.ParsesEncoding | src/acpi/madt.rs:35-94 | for every concatenation of well-formed records the lists are exactly those records by type and in order, or a panic if and only if they do not fit |
| Madt.ListsAreRecords | src/acpi/madt.rs:35-94 | conversely, delivered lists are exactly the records that stand in the table up to where no complete record starts |
| Madt.EveryTable | src/acpi/madt.rs:35-94 | for every table, the records that stand at its front overflow a list (a panic), or come to where no complete record starts (delivered by type and in order), or come to an odd record (discarded) |
| Madt.OddRecordDiscards | src/acpi/madt.rs:82-85 | a record of unknown type or wrong length discards all lists |
| Madt.DiscardedIff | src/acpi/madt.rs:82-85 | lists are discarded exactly if such a record comes after records that fit |
| TextScreen.CellShows | src/device/vga/buffer.rs:54-81 | the last row shows the current line and the rows above the lines before it, blanks where there is nothing |
| TextScreen.TabIsFourBlanks | src/device/vga/buffer.rs:60-63 | a tab adds four blanks to the text |
| TextScreen.TextKept | src/device/vga/buffer.rs:65-75 | wrapping loses no printable byte |
| TextScreen.LinesWrapped | src/device/vga/buffer.rs:66-69 | no line of the log is wider than the screen |
| TextScreen.BackspaceUndoes | src/device/vga/buffer.rs:84-98 | backspace takes a printable byte back exactly if it did not wrap |
| TextScreen.NewLineScrolls | src/device/vga/buffer.rs:102-117 | a new line moves every row up and blanks the last |
| TextScreen.Vga.SyncBuffer | src/device/vga/vga.rs:76-90 | every cell of the device is the buffer's |
| TextScreen.TextBuffer.ClearRow | src/device/vga/buffer.rs:121-125 | one row is blank, the others as before |
| TextScreen.TextBuffer.NewLine | src/device/vga/buffer.rs:102-117 | the buffer shows the log with a new line |
| TextScreen.TextBuffer.DeleteByte | src/device/vga/buffer.rs:84-98 | the buffer shows the log with the last byte of the line gone |
| TextScreen.TextBuffer.WriteByte | src/device/vga/buffer.rs:54-81 | the buffer shows the last 25 lines of the log with the byte written, the column is the last line's length, an active buffer is on the device |
| TextScreen.TextBuffer.WriteStr | src/device/vga/buffer.rs:128-136 | the same for every byte string |

## Left out

- Machines.Machine.MapTo: pages of P4 slot 511 are excluded, because they are the recursive window itself; words left over in fresh frames must be harmless (see Findings), since otherwise a stale translation may lead later writes to other frames.
- Machines.Machine.Map: as for `Machine.MapTo`.
- Machines.Machine.Unmap: pages of P4 slot 511 are excluded.
- Machines.Machine.NextTableCreate: the recursive slot is excluded; the entry set must be what the operation ends with, which is what harmless words come to.
- ActiveTables.With: a closure is a sequence of `map_to` calls; as for `Machine.MapTo`.
- ActiveTables.MapTemporary: as for `Machine.MapTo`.
- ActiveTables.NewInactive: as for `Machine.MapTo`.
- MemoryInit.InitMemory: as for `Machine.MapTo`.
- Stacks.MapRow: as for `Machine.MapTo`.
- Stacks.StackAllocator.AllocStack: as for `Machine.MapTo`; the pages left in the range must be unmapped, as `memory::init` leaves them and every call keeps them.
- ActiveTables.InitPaging: as for `Machine.MapTo`; when several checks of `init` fail, which panic comes first is not modelled.
- FrameAllocator.AreaFrameAllocator.AllocateFrame: counts above 1 are not modelled; no caller uses them and the code advances by one frame whatever the count.
- The bits of an entry that no flag names (9 to 11 and 52 to 62) are not part of the model; in huge entries the PAT bit counts as part of the frame, as in the code.
- Global pages, paging-structure caches and the accessed and dirty bits that hardware sets.
- Wrap-around of `usize` page and frame numbers, and addresses above 2^64.
- `MapperFlush` and `MapperFlushAll` as obligations that panic when dropped: a matter of the type system.
- `deallocate_frame`, which is not implemented, and `dma.rs`.
- Locks, atomics and interrupts inside a scheduler step; the register and stack contents of a context switch and of `create`.
- The heap allocator, ELF and multiboot parsing: sections and memory areas are inputs.
- APIC, PIC, PCI, PIT, serial, PS/2, AHCI, GDT and exception handlers, keyboard layouts, switching between text buffers, the cursor: short code without properties across operations.
