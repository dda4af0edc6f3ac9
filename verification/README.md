# Illinix, verified core

A Dafny model of the parts of the Illinix kernel whose correctness depends on whole
runs: the red-black tree and the fair scheduler built on it, the buddy page allocator,
page tables with address-space switching and the fork copy, the terminal's line buffer,
and file reading.  `dafny verify dfyconfig.toml` checks everything.

| files | what they model |
|---|---|
| `Powers.dfy` | powers of two and right shifts, used by the arithmetic below |
| `RbShape.dfy`, `RbMemory.dfy`, `RbTree.dfy`, `RbWord.dfy` | `lib/rbtree.c`: tree shapes and their laws, how a heap of nodes stands for a tree, the code on that heap, the packed parent/colour word |
| `FixedPoint.dfy` | the 64-by-32-bit arithmetic that turns time into virtual time |
| `CfsSpec.dfy`, `CfsInvariant.dfy`, `CfsFairness.dfy`, `CfsLiveness.dfy`, `Cfs.dfy` | `kernel/cfs.c`: the scheduler as a state machine over a sorted list, its invariants, accounting and fairness over runs, and the tree-based code that takes the same steps |
| `BuddySpec.dfy`, `BuddyAllocator.dfy`, `FreeRing.dfy` | `kernel/kmalloc.c`: blocks, tilings and what the free lists must be; the linked rings in memory; the allocator on them |
| `PageTable.dfy`, `AddressSpace.dfy`, `VmCopy.dfy` | `kernel/vm.c` and `kernel/access.c`: tables as a translation map, the switch between processes, the copy for `fork` |
| `Terminal.dfy`, `FileRead.dfy` | `drivers/terminal.c`; `drivers/fs.c` and `kernel/vfs.c` |

State that the kernel updates in place is held in classes, and each operation is proved
against a function of the old state.  The main theorems are about those functions.

## Where the code and its description differ

The model follows the code.

- `check_preempt_tick` says that a task behind `min_vruntime` is left alone.  It compares
  an unsigned difference with 0, so such a task, once it has run for the minimum
  granularity, is asked to reschedule (`CfsFairness.PreemptExactly` gives all cases).
  That does not yet take the processor away: the task is queued and picked again when
  the head of the queue is larger.  `CfsFairness.TickSwitches` says exactly when a tick
  changes the running task, and `CfsFairness.WokenRunsOn` a run from boot after which a
  task behind `min_vruntime` is asked and runs on.
- `freemap` says that it frees a page table that has become empty.  It compares the count
  before lowering it, and the count of a table with a present entry is not 0, so the
  branch is never taken and tables stay allocated (`PageTable.PageTables.UnmapOne`).
  It also compares 32-bit addresses, so a range up to 2^32 counts as empty, and one that
  ends inside the last page goes on at page 0 (`PageTable.PageTables.Freemap`).
- The table of inverse weights is described as 2^32 divided by the weight.  That holds of
  27 entries; the thirteen others are one larger, rounded up
  (`FixedPoint.TableQuotient`).
- `read_data` checks every block number except that of the first block of a call
  (`FileRead.FirstUnchecked`; the exact condition for -1 is in `FileRead.ReadData`).
- `terminal_read` finds a line with interrupts off but takes it out with interrupts on.
  `Terminal.LineStays` says exactly which keys in between leave the characters that were
  found in their place, and `Terminal.Terminal.Consume` that the size wraps exactly when
  fewer characters are left than are taken out.  The theorems about runs hold up to the
  first such removal (`Terminal.Terminal.Play`).

## Model

| member | source | states |
|---|---|---|
| `RbTree.Tree.Relink` | student-distrib/lib/rbtree.c:3-44 | the exact heap after a rotation in either direction, nothing else touched |
| `RbTree.Tree.Rotate` | student-distrib/lib/rbtree.c:3-44 | the heap, parent links included, stands for the rotated tree at the same place |
| `RbShape.RotateInorder` | student-distrib/lib/rbtree.c:3-44 | a rotation keeps the in-order sequence |
| `RbTree.Tree.InsertStep` | student-distrib/lib/rbtree.c:49-99 | one round keeps the in-order sequence and the one allowed violation, and moves it strictly closer to the root |
| `RbTree.Tree.InsertColor` | student-distrib/lib/rbtree.c:46-102 | after linking a red node anywhere the result is red-black with consistent parent links and the same in-order sequence; the climb ends |
| `RbShape.RisePastUncle` | student-distrib/lib/rbtree.c:54-62 | recolouring with a red uncle moves the violation up two levels |
| `RbShape.RiseInner` | student-distrib/lib/rbtree.c:64-70 | the first rotation turns an inner grandchild into an outer one |
| `RbShape.RiseOuter` | student-distrib/lib/rbtree.c:72-74 | the second rotation ends the violation |
| `RbTree.Tree.EraseStep` | student-distrib/lib/rbtree.c:107-168 | one round keeps the sequence and the missing black node, and ends or moves closer to the root |
| `RbTree.Tree.EraseColor` | student-distrib/lib/rbtree.c:104-171 | a tree short of one black node at a position becomes red-black with the same in-order sequence; the loop ends |
| `RbShape.SinkRedSibling` | student-distrib/lib/rbtree.c:110-115 | after the rotation the sibling is black and the shortage is still one |
| `RbShape.SinkRecolor` | student-distrib/lib/rbtree.c:117-121 | with black nephews the shortage moves to the parent |
| `RbShape.SinkNear` | student-distrib/lib/rbtree.c:124-129 | after the rotation the far nephew is red |
| `RbShape.SinkFar` | student-distrib/lib/rbtree.c:131-136 | one rotation makes the whole tree red-black |
| `RbTree.Tree.Splice` | student-distrib/lib/rbtree.c:218-230 | a node with at most one child is replaced by that child, with the parent and colour the repair needs |
| `RbTree.Tree.Transplant` | student-distrib/lib/rbtree.c:182-215 | the exact heap after the successor has taken the place, colour and children of the erased node |
| `RbTree.Tree.Erase` | student-distrib/lib/rbtree.c:173-235 | erasing any node of a red-black tree gives a red-black tree whose in-order sequence is the old one without exactly that node |
| `RbTree.Tree.Extreme` | student-distrib/lib/rbtree.c:241-262 | `rb_first` and `rb_last` are the ends of the in-order sequence |
| `RbTree.Tree.Next` | student-distrib/lib/rbtree.c:264-312 | `rb_next` and `rb_prev` are the in-order neighbours, NULL past the ends |
| `RbTree.Tree.Traverse` | student-distrib/lib/rbtree.c:241-312 | `rb_first` followed by `rb_next` until NULL visits exactly the in-order sequence |
| `RbTree.Tree.ThereAndBack` | student-distrib/lib/rbtree.c:264-312 | `rb_prev` undoes `rb_next` and the other way round |
| `RbShape.HeightBound` | student-distrib/lib/rbtree.c:46-235 | a red-black tree of n nodes has height at most 2*log2(n+1) |
| `RbTree.Tree.Link` | student-distrib/include/rbtree.h:70-79 | the new node stands red and childless at the empty position |
| `RbWord.Pack` | student-distrib/include/rbtree.h:26-52 | the packed word gives back the parent and the colour |
| `RbWord.PackUnpacked` | student-distrib/include/rbtree.h:26-52 | every word the macros leave is its parent and colour packed |
| `RbWord.SetParent` | student-distrib/include/rbtree.h:45-47 | a new parent with the old colour |
| `RbWord.SetColor` | student-distrib/include/rbtree.h:50-52 | the old parent with a new colour |
| `RbWord.LinkWord` | student-distrib/include/rbtree.h:70-79 | a bare parent address is a red node's word |
| `FixedPoint.MulShr` | student-distrib/kernel/cfs.c:773-785 | the two half products give the exact quotient a*mul/2^shift, up to the width of the result |
| `FixedPoint.Normalise` | student-distrib/kernel/cfs.c:741-762 | the loop ends within 32 rounds with a factor below 2^32 and a shift between 0 and 32 |
| `FixedPoint.HalvingsFit` | student-distrib/kernel/cfs.c:741-762 | it stops as soon as the factor fits: having halved at all, the factor is at least 2^31 |
| `FixedPoint.CalcDelta` | student-distrib/kernel/cfs.c:741-762 | the code computes the scaled product, up to 64-bit wrap-around |
| `FixedPoint.ScaledError` | student-distrib/kernel/cfs.c:741-762 | against delta*P/2^32 the result is never too large, and too small by less than 1 + delta*2^(32-shift)/2^32 |
| `FixedPoint.ScaledExact` | student-distrib/kernel/cfs.c:741-762 | for weight 1024 on top nothing is dropped: the result is floor(delta*inv/2^22) |
| `FixedPoint.TableStep` | student-distrib/kernel/cfs.c:65-95 | weights fall and inverses rise strictly with nice; only nice 0 has weight 1024 |
| `FixedPoint.TableInverse` | student-distrib/kernel/cfs.c:65-95 | weight times inverse is within less than one weight of 2^32, for every entry |
| `FixedPoint.TableQuotient` | student-distrib/kernel/cfs.c:77-95 | an entry is the quotient 2^32/weight of the comment if and only if it is not one of thirteen, which are one larger |
| `FixedPoint.CalcDeltaVruntime` | student-distrib/kernel/cfs.c:710-718 | the weight-1024 shortcut and the general path compute the same charge |
| `FixedPoint.ChargeIs` | student-distrib/kernel/cfs.c:710-718 | the charge is elapsed time times inverse weight over 2^22, rounded down |
| `FixedPoint.ChargeByWeight` | student-distrib/kernel/cfs.c:65-95 | for every entry of the tables, charge times weight is elapsed time times 1024, with two-sided bounds on the rounding |
| `FixedPoint.ChargeMonotone` | student-distrib/kernel/cfs.c:710-785 | the charge is non-decreasing in elapsed time and in nice level |
| `FixedPoint.ChargeBound` | student-distrib/kernel/cfs.c:710-785 | a charge is at most 69 times the elapsed time |
| `FixedPoint.TickCharge` | student-distrib/kernel/cfs.c:710-785 | a tick is charged at least 11536 at every nice level |
| `FixedPoint.LoadWeight` | student-distrib/kernel/cfs.c:820-825 | every nice level has a weight and inverse that the charge laws cover |
| `FixedPoint.NicerIsLighter` | student-distrib/kernel/cfs.c:820-825 | the weight falls and the inverse rises strictly with nice, and the charge never falls |
| `FixedPoint.KnownLoads` | student-distrib/kernel/cfs.c:65-95 | the loads of nice -20, 0, 5 and 19 |
| `CfsInvariant.InsertPlace` | student-distrib/kernel/cfs.c:521-551 | a task goes behind every task that is not larger, so ties keep their order |
| `CfsInvariant.TickKeeps` | student-distrib/drivers/time.c:32-53 | a tick keeps the invariant and does not lower `min_vruntime` |
| `CfsInvariant.ForkKeeps` | student-distrib/kernel/cfs.c:212-238 | so does a fork |
| `CfsInvariant.WakeKeeps` | student-distrib/kernel/cfs.c:481-513 | so does a wake-up, and the task is queued afterwards unless it was on the run queue |
| `CfsInvariant.StepKeeps` | student-distrib/kernel/cfs.c:212-346 | every step keeps: the queue sorted without repeats, the running task not in it, `on_rq` set for exactly these, nobody more than half the target latency behind `min_vruntime`, the running task charged up to date and its dispatch before that |
| `CfsInvariant.RunKeeps` | student-distrib/kernel/cfs.c:652-700 | over every run the invariant holds and `min_vruntime` never decreases |
| `CfsFairness.ScheduleEffect` | student-distrib/kernel/cfs.c:318-380 | a reschedule dispatches a task of least virtual runtime and changes nobody's account |
| `CfsFairness.MinVruntimeFollows` | student-distrib/kernel/cfs.c:682-700 | when a tick is charged, `min_vruntime` becomes the larger of itself and the least virtual runtime among all tasks that want to run |
| `CfsFairness.StepMinVruntime` | student-distrib/kernel/cfs.c:652-700 | the same of the whole tick, and no other step changes it |
| `CfsFairness.ForkEffect` | student-distrib/kernel/cfs.c:212-238 | a new task starts at the later of its parent's virtual runtime and `min_vruntime` plus its slice, with the weight of its nice level; nobody else changes |
| `CfsFairness.WakeEffect` | student-distrib/kernel/cfs.c:834-851 | a wake-up never lowers a virtual runtime, grants at most half the target latency, and moves the task no further; a task that is not asleep is left alone |
| `CfsFairness.StopEffect` | student-distrib/kernel/cfs.c:281-285 | a sleeper leaves, and the least of the others runs, with its accounts as they were |
| `CfsFairness.ExitEffect` | student-distrib/kernel/cfs.c:253-273 | the exiting task leaves, the parent joins exactly for the current console, and the least runs |
| `CfsFairness.TimeConserved` | student-distrib/drivers/time.c:32-53 | over every run the execution times together grow by exactly the clock's advance, and the running task is charged up to the present |
| `CfsFairness.RunBelow` | student-distrib/kernel/cfs.c:652-675 | over every run no account rises faster than 69 per unit of clock time plus the slices of forked tasks |
| `Cfs.RunFits` | student-distrib/kernel/cfs.c:652-700 | as long as that bound stays below 2^63, every step of the run is within the range in which the 64-bit code is exact |
| `Cfs.RunQueue.Execute` | student-distrib/kernel/cfs.c:212-346 | then any run of the tree-based 64-bit code ends in the state of the list model |
| `CfsFairness.PreemptExactly` | student-distrib/kernel/cfs.c:612-645 | exactly when a tick asks for a reschedule, with the case of a task behind `min_vruntime` |
| `CfsFairness.TickSwitches` | student-distrib/kernel/cfs.c:591-645 | a tick changes the running task if and only if somebody is queued, it asks for a reschedule and the head of the queue is not larger |
| `CfsFairness.BehindRunsOn` | student-distrib/kernel/cfs.c:612-645 | a task behind `min_vruntime` and behind the whole queue is asked to reschedule, runs on, and starts a new slice |
| `CfsFairness.WokenRunsOn` | student-distrib/kernel/cfs.c:612-645 | a run from boot (fork, sleep, tick, wake-up, tick) that ends in such a state, and what the next tick does |
| `CfsLiveness.TickIsTicked` | student-distrib/drivers/time.c:32-53 | a tick charges the running task, which then runs on within its slice or makes way for a least one |
| `CfsLiveness.NoStarvation` | student-distrib/kernel/cfs.c:318-380 | whatever the time slices up to a bound, every queued task runs within a number of ticks computed from the lead of the others |
| `CfsLiveness.StaysClose` | student-distrib/kernel/cfs.c:591-645 | for every b: if no dispatch charges more than b, the spread of virtual runtimes, once within b, stays within b over any number of ticks, and its lower end only rises |
| `CfsLiveness.DispatchBound` | student-distrib/kernel/cfs.c:591-675 | with slices up to a bound and ticks charged at most r, no dispatch charges more than r for each tick of a slice and one more |
| `CfsLiveness.SlicesKeepClose` | student-distrib/kernel/cfs.c:591-675 | so the spread stays within that, from a dispatch on |
| `CfsLiveness.AnyRate` | student-distrib/kernel/cfs.c:710-785 | r is at most 69 ticks at every nice level |
| `CfsLiveness.NiceZeroRate` | student-distrib/kernel/cfs.c:710-718 | and one tick at nice 0 |
| `Cfs.MaxVruntime` | student-distrib/kernel/cfs.c:792-798 | the signed 64-bit comparison is the maximum within 2^63, and survives a value below zero |
| `Cfs.MinVruntime` | student-distrib/kernel/cfs.c:805-811 | likewise the minimum |
| `Cfs.PlaceNew` | student-distrib/kernel/cfs.c:834-851 | a new task starts at `min_vruntime` plus its slice, or later |
| `Cfs.PlaceBack` | student-distrib/kernel/cfs.c:834-851 | a woken task gets at most half the target latency of credit, also when the subtraction wraps |
| `Cfs.RunQueue.constructor` | student-distrib/kernel/process.c:656-714 | the exact state after boot, with the first shell weighted and placed, and that it satisfies the invariant |
| `Cfs.RunQueue.UpdateMinVruntime` | student-distrib/kernel/cfs.c:682-700 | the cached leftmost node gives the minimum over queue and running task, and the value only rises |
| `Cfs.RunQueue.UpdateCurr` | student-distrib/kernel/cfs.c:652-675 | the 64-bit accounting takes the step of the list model |
| `Cfs.RunQueue.FindPlace` | student-distrib/kernel/cfs.c:521-540 | the descent ends at the place between not-larger and larger keys, in at most 2*log2(n+1) steps, and knows whether it is leftmost |
| `Cfs.RunQueue.EnqueueEntity` | student-distrib/kernel/cfs.c:521-551 | tree, cached leftmost node and count agree with stable insertion into the sorted list |
| `Cfs.RunQueue.DequeueEntity` | student-distrib/kernel/cfs.c:456-471 | they agree with removal, the cache moving to the successor |
| `Cfs.RunQueue.PutPrevTask` | student-distrib/kernel/cfs.c:404-417 | takes the step of the list model |
| `Cfs.RunQueue.PickNext` | student-distrib/kernel/cfs.c:356-380 | halts exactly with an empty queue, changing nothing; otherwise dispatches the head of the sorted list: least virtual runtime, ties to the earliest enqueued |
| `Cfs.RunQueue.Reschedule` | student-distrib/kernel/cfs.c:318-346 | halts exactly with an empty queue, otherwise takes the step of the list model |
| `Cfs.RunQueue.DoTimer` | student-distrib/drivers/time.c:32-53 | a tick on the tree takes the tick step of the list model and keeps the invariant |
| `Cfs.RunQueue.SchedFork` | student-distrib/kernel/cfs.c:212-238 | likewise for a fork |
| `Cfs.RunQueue.Wakeup` | student-distrib/kernel/cfs.c:481-513 | likewise for a wake-up; a task on the run queue, running or waiting, is left alone |
| `Cfs.RunQueue.SchedSleep` | student-distrib/kernel/cfs.c:281-285 | likewise for a sleep; the processor halts exactly when nobody waits |
| `Cfs.RunQueue.SchedExit` | student-distrib/kernel/cfs.c:253-273 | likewise for an exit with its wake-up of the parent; the processor halts exactly when that leaves nobody |
| `BuddySpec.SplitTiling` | student-distrib/kernel/kmalloc.c:220-243 | splitting a block keeps the area covered exactly once |
| `BuddySpec.JoinTiling` | student-distrib/kernel/kmalloc.c:300-317 | so does joining two halves |
| `BuddySpec.FreeBlockAround` | student-distrib/kernel/kmalloc.c:194-209 | free space that is a whole aligned block lies inside one free block |
| `BuddySpec.FreeIsMaximal` | student-distrib/kernel/kmalloc.c:300-359 | a block is free if and only if it is a maximal block without a page in use |
| `BuddySpec.FreeIsCanonical` | student-distrib/kernel/kmalloc.c:300-359 | the free lists, as sets, are determined by the blocks in use |
| `BuddySpec.AllFreed` | student-distrib/kernel/kmalloc.c:300-359 | with nothing in use they are the seven 8 MB blocks of the start |
| `BuddySpec.FlipMatches` | student-distrib/kernel/kmalloc.c:265-269 | freeing or taking one half flips the pair's bit and no other |
| `BuddyAllocator.Allocator.constructor` | student-distrib/kernel/kmalloc.c:39-66 | initially the whole range is free, in 8 MB blocks, listed by the rings in memory, and every bit is right |
| `BuddyAllocator.BitsApart` | student-distrib/kernel/kmalloc.c:72-81 | every pair has a bit of its own inside the array |
| `BuddyAllocator.Allocator.BuddySplit` | student-distrib/kernel/kmalloc.c:220-243 | the block handed out lies in the block taken, the halves not used are free, every bit is right again |
| `BuddyAllocator.Allocator.GetPage` | student-distrib/kernel/kmalloc.c:194-209 | NULL if and only if the order is illegal or no wholly free aligned block of it exists; otherwise a block without a page in use, out of a smallest free block that is large enough; partition, bits, lists and rings stay right |
| `BuddyAllocator.BlockInRange` | student-distrib/kernel/kmalloc.c:39-66 | a block is 4096*2^order bytes inside 8 MB to 64 MB, at a multiple of its size |
| `BuddyAllocator.BlockPages` | student-distrib/kernel/kmalloc.c:251-269 | its pages are exactly the pages of its bytes, so the partition is one of addresses |
| `BuddyAllocator.Allocator.RemoveFromFree` | student-distrib/kernel/kmalloc.c:325-359 | the search finds the buddy, takes it off and yields the parent's address |
| `BuddyAllocator.Allocator.FreeBlock` | student-distrib/kernel/kmalloc.c:300-317 | the merge ends with free and live blocks partitioning the area, no pair free, every bit the exclusive or of its halves |
| `BuddyAllocator.Allocator.FreePage` | student-distrib/kernel/kmalloc.c:286-292 | exactly the freed block leaves the live ones, and the partition stays right |
| `BuddyAllocator.Allocator.GetThenFree` | student-distrib/kernel/kmalloc.c:194-317 | allocating and freeing is the identity on the free blocks |
| `BuddyAllocator.OwnersWrite` | student-distrib/kernel/kmalloc.c:512-537 | whatever is written into blocks in use, the rings list the same free blocks |
| `BuddyAllocator.Allocator.OwnerWrites` | student-distrib/kernel/kmalloc.c:194-209 | a write into a block in use keeps the whole allocator valid |
| `FreeRing.InitLists` | student-distrib/kernel/kmalloc.c:512-518 | twelve empty rings in one memory |
| `FreeRing.Push` | student-distrib/kernel/kmalloc.c:520-527 | the ring lists the old entries and then the new one, both ways; no stored address and no other node changes |
| `FreeRing.Pop` | student-distrib/kernel/kmalloc.c:529-537 | NULL exactly for the empty ring, otherwise the first entry; the ring lists the others, and no other node changes |
| `FreeRing.Remove` | student-distrib/kernel/kmalloc.c:339-358 | finds an entry by its stored address if and only if there is one; the ring lists the others in order, and no other node changes |
| `FreeRing.LinkedUpdate` | student-distrib/kernel/kmalloc.c:512-537 | changing one ring leaves the eleven others linked: no node is in two, and each stores its own address |
| `FreeRing.TakeFrom` | student-distrib/kernel/kmalloc.c:325-359 | among the rings, the search finds an address if and only if its list holds it |
| `BuddyAllocator.NewAddress` | student-distrib/kernel/kmalloc.c:300-317 | a block that is not free shares its address with no list entry of any order, since blocks do not overlap |
| `PageTable.CountUpdate` | student-distrib/kernel/vm.c:294-295 | how one write moves the number of present entries |
| `PageTable.AddTable` | student-distrib/kernel/vm.c:256-261 | entering a cleared table changes no translation |
| `PageTable.SetEntry` | student-distrib/kernel/vm.c:294-295 | writing one entry changes that translation and no other, and keeps each count equal to the present entries of its table |
| `PageTable.ViewBySlot` | student-distrib/kernel/vm.c:249-266 | the translations are the entries: slot k of the table of directory slot d is for address d*4M+k*4K |
| `PageTable.FreshTable` | student-distrib/kernel/vm.c:256-261 | a page from the allocator is nobody's table, since live blocks are disjoint |
| `PageTable.TablesInUse` | student-distrib/kernel/vm.c:256-265 | every entry of every table lies in a page the allocator has given out |
| `PageTable.PageTables.constructor` | student-distrib/kernel/vm.c:249-266 | no managed page is mapped at first |
| `PageTable.PageTables.Walk` | student-distrib/kernel/vm.c:249-266 | the table of a page, made on demand; translations stay; fails only for an unmapped page, without permission to allocate or without memory |
| `PageTable.PageTables.Lookup` | student-distrib/kernel/vm.c:249-266 | says whether the page is mapped |
| `PageTable.PageTables.MapOne` | student-distrib/kernel/vm.c:286-298 | refuses exactly the mapped pages, otherwise adds exactly this translation |
| `PageTable.PageTables.UnmapOne` | student-distrib/kernel/vm.c:318-329 | refuses exactly the unmapped pages, otherwise removes exactly this translation; a table in use is never released |
| `PageTable.PageTables.Mmap` | student-distrib/kernel/vm.c:278-302 | for each page up to the first that was mapped, the entry is present, has frame number pa/4096+i and the flags it is given, and no other translation changes |
| `PageTable.PageTables.Freemap` | student-distrib/kernel/vm.c:312-333 | removes the translations up to the first page that was not mapped, and no other; nothing for a range that reaches 2^32; what happens when the address goes round to page 0 |
| `PageTable.FreemapUndoesMmap` | student-distrib/kernel/vm.c:278-333 | over absent pages, unmapping restores the old translation map |
| `AddressSpace.MapArea` | student-distrib/kernel/access.c:26-33 | every recorded word is mapped, except where a page was mapped already |
| `AddressSpace.UserMemMap` | student-distrib/kernel/access.c:80-98 | all areas are laid under what was mapped |
| `AddressSpace.UserMemUnmap` | student-distrib/kernel/access.c:118-130 | from each area go the leading pages that were mapped |
| `AddressSpace.CutsAll` | student-distrib/kernel/access.c:118-130 | for disjoint areas that are all mapped, exactly their pages go |
| `AddressSpace.RecordAt` | student-distrib/kernel/access.c:26-33 | every page of every area has the word recorded for it |
| `AddressSpace.RecordOnly` | student-distrib/kernel/access.c:26-33 | and there are no other pages |
| `AddressSpace.Umap` | student-distrib/kernel/access.c:18-23 | the effect of a switch on any live mapping, the init process left alone |
| `AddressSpace.SwitchIsExact` | student-distrib/kernel/access.c:18-33 | if the live mapping is what `from` records, beside pages of neither, it becomes what `to` records beside the same pages |
| `AddressSpace.SwitchShows` | student-distrib/kernel/access.c:18-33 | afterwards each page recorded for `to` has its word, and a page only `from` had is gone |
| `AddressSpace.SwitchBack` | student-distrib/kernel/access.c:18-33 | switching away and back restores the mapping |
| `AddressSpace.RunningAlone` | student-distrib/kernel/access.c:18-130 | over any run of switches the live mapping is the running process's alone |
| `VmCopy.MoveBytes` | student-distrib/kernel/vm.c:524-533 | through the scratch page and a remap in between, the new frame gets the page's bytes |
| `VmCopy.MovePage` | student-distrib/kernel/vm.c:511-537 | one page moves to the next frame with its recorded flags; stops only for an unmapped page or lack of memory |
| `VmCopy.CopyNext` | student-distrib/kernel/vm.c:524-536 | another page copied keeps all copies so far, although the scratch frame is overwritten |
| `VmCopy.CopyArea` | student-distrib/kernel/vm.c:509-537 | an area is copied page by page into frames of its own |
| `VmCopy.VmCopy` | student-distrib/kernel/vm.c:469-553 | a deep copy: same places and flags, every page of the child in a frame of its own that holds the parent's bytes, the live mapping is the child's, every other frame unchanged, the scratch page and frame given back; stops only for an unmapped page or lack of memory |
| `VmCopy.CopyIsApart` | student-distrib/kernel/vm.c:469-553 | parent and child share no frame, and the parent's frames hold what they held |
| `VmCopy.AlikeFlags` | student-distrib/kernel/vm.c:535 | the child's entries have all twelve flag bits of the parent's |
| `VmCopy.ParentReturns` | student-distrib/kernel/process.c:137-155 | when the child gives way to the parent, the mapping is the one before the copy |
| `Terminal.Terminal.constructor` | student-distrib/drivers/terminal.c:33-52 | an empty queue |
| `Terminal.Terminal.In` | student-distrib/drivers/terminal.c:241-257 | the ring is a bounded queue: a character joins at the end, and in a full one only the oldest goes |
| `Terminal.Terminal.Backspace` | student-distrib/drivers/terminal.c:293-306 | the newest character goes, if any |
| `Terminal.Terminal.Scan` | student-distrib/drivers/terminal.c:377-384 | finds the length of the first line, or that there is none |
| `Terminal.Terminal.Bufcpy` | student-distrib/drivers/terminal.c:448-457 | the bytes come out in ring order and no other byte of the destination changes |
| `Terminal.Terminal.Consume` | student-distrib/drivers/terminal.c:390-405 | returns the bytes at the head; the rest stays a queue if and only if that many are left; otherwise the size wraps, which is a ring again only when all 128 are taken from an empty one |
| `Terminal.Terminal.Play` | student-distrib/drivers/terminal.c:241-406 | over every run of keys, searches and removals the ring is the queue of the ledger and the bytes returned are its output, up to the first removal that finds fewer characters than its search; that one wraps the size |
| `Terminal.Terminal.Search` | student-distrib/drivers/terminal.c:367-388 | with keys between its rounds, ends in the first queue that holds a line, and gives its length |
| `Terminal.Terminal.Read` | student-distrib/drivers/terminal.c:340-406 | with any keys while it searches and before it takes the line out: the error codes; the number returned is the least of the first line's length, nbytes and 128; the bytes returned in every case and the queue left; no line end before the last byte whenever the keys in between are quiet |
| `Terminal.TakenIs` | student-distrib/drivers/terminal.c:377-405 | that number, of any queue |
| `Terminal.FindRecords` | student-distrib/drivers/terminal.c:377-384 | and of what a search records in a run |
| `Terminal.AwaitedIs` | student-distrib/drivers/terminal.c:367-388 | the search ends after the first round that leaves a line, and not before |
| `Terminal.InOrder` | student-distrib/drivers/terminal.c:241-406 | over every run of keys, searches and removals, each of which finds enough characters, what has left and what is queued is the edited text, in order, each character once |
| `Terminal.ReadsAccount` | student-distrib/drivers/terminal.c:241-406 | over every such run, the reads return in order exactly what left and was not pushed out of a full buffer |
| `Terminal.NothingLost` | student-distrib/drivers/terminal.c:241-406 | over every such run, what was returned and the queue are the whole edited text if and only if nothing was typed into a full buffer |
| `Terminal.ReadCovered` | student-distrib/drivers/terminal.c:387-405 | a removal finds enough characters if and only if the keys since the search leave as many as it found |
| `Terminal.LineStays` | student-distrib/drivers/terminal.c:387-405 | over all keys between the search and the removal: the first k characters are the very same ones if and only if none was typed into a full buffer and none erased with k or fewer left |
| `Terminal.EraseStays` | student-distrib/drivers/terminal.c:293-306 | by value, an erase keeps the first k characters if and only if there are more |
| `Terminal.KeyStays` | student-distrib/drivers/terminal.c:241-257 | by value, a key keeps them if and only if there is room or they and the next are all the same character |
| `Terminal.LineLost` | student-distrib/drivers/terminal.c:387-405 | a whole line of more than its newline is never kept by a key into a full buffer |
| `FileRead.ReadData` | student-distrib/drivers/fs.c:96-165 | gives exactly the bytes asked for if they are there, the rest of the file otherwise, none past the end, each from its block, and leaves the rest of the buffer; -1 if and only if the inode or buffer is bad or a block after the first, before the end of file and request, has no valid number, and then the bytes before that block are in the buffer |
| `FileRead.LooksNoFurther` | student-distrib/drivers/fs.c:140-162 | bytes, failure and what a failure leaves in the buffer depend on no block entry but those of the blocks that hold the bytes asked for |
| `FileRead.BrokenReads` | student-distrib/drivers/fs.c:140-162 | fewer bytes than asked are read if and only if a later block has no valid number |
| `FileRead.FirstUnchecked` | student-distrib/drivers/fs.c:119-128 | within one block a read never fails, whatever the block number |
| `FileRead.OpenFile.Read` | student-distrib/kernel/vfs.c:270-286 | the position advances by exactly what is asked for or left, and stays after a failure |
| `FileRead.ReadsJoin` | student-distrib/kernel/vfs.c:270-286 | any sequence of reads returns, joined, the file from the first position to the last: nothing skipped or repeated |
| `FileRead.ReadsFinish` | student-distrib/kernel/vfs.c:270-286 | on a well-formed file, reads of at least one byte advance by at least one each until the end |
| `FileRead.ReadsReach` | student-distrib/kernel/vfs.c:270-286 | on a well-formed file the position after any reads is their sum from the start, or the end |

## Left out

- Cfs.RunQueue.DoTimer: the time slice is an argument, because the load sums it is computed from are never lowered by a sleep or an exit; `flag`, which `do_timer` sets and consumes within one call, is not a field.
- Cfs.RunQueue.SchedFork: the new task's virtual time slice is an argument, for the same reason.
- Cfs.RunQueue.UpdateCurr: accounts that reach 2^63 are excluded by a precondition; `Cfs.RunFits` says how long a run meets it.
- Cfs.RunQueue.PickNext: what interrupts do after the processor has halted is not modelled.
- Cfs.RunQueue.constructor: of boot, only the run queue and the first shell, from memory that starts out as zeros.
- CfsLiveness.NoStarvation: for runs of ticks over a fixed set of tasks; forks and wake-ups can put new tasks in front for ever.
- RbTree.Tree.Erase: parent and colour are two fields of a node; `RbWord.Pack` and its companions show that one word holds both.
- BuddyAllocator.Allocator.FlipBit: the bitmap is a set of pairs; `BuddyAllocator.BitsApart` shows that each pair has a bit of its own.
- BuddyAllocator.Allocator.FreePage: only blocks in use may be freed, with their own order.
- PageTable.PageTables.Walk: pages lie in directory entries that boot has not set.
- PageTable.PageTables.Mmap: sizes are not negative and pages lie in directory entries that boot has not set; tables are a map by address, and flushing the TLB is not modelled.
- PageTable.PageTables.Freemap: every page it comes to lies in a directory entry that boot has not set.
- AddressSpace.MapArea: the end of an area is below 2^32, as `vmend` is a 32-bit word; the number of refused pages is not returned, since no caller looks at it.
- AddressSpace.UserMemMap: for a process whose `vm.size` is not 0; `create_vm` is not modelled.
- VmCopy.VmCopy: the user page allocator is a list of frames to hand out; the scratch page must be free; the area records are well formed and disjoint; the remaining fields of `vmem_t` and the release of the child's old area records are not modelled.
- Terminal.Terminal.Read: a process without a terminal, scan codes, echo and cursor are not modelled, nor keys between the copy and the update of head and size; the keys are given, and when they run out before there is a line the call is still waiting.
- FileRead.ReadData: inode sizes are below 2^31, where the signed positions of the code are exact.
- Slab layer, user-space allocator, `vmalloc` and `vmdealloc`, stack growth: their records and free lists do not keep the invariants their comments state.
- Process creation and teardown, context switch, interrupt and boot code, devices, directory reads, `stdlib` and user programs: hardware effects or easy members.
