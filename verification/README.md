# Unidos in Dafny

A Dafny model of the parts of the Unidos kernel that carry its hard invariants,
with proofs that they hold for every input and over every run.

- **Physical memory.** `Regions`, `Bitmap` and `Pmm` model `kernel/kmem.c`: the table
  of reserved ranges, the frame bitmap with its cached count and search hint, and the
  agreement between the three.
- **Address spaces.** `PageTables`, `PageBytes`, `PageClone`, `PageTeardown`,
  `FrameBooks`, `CloneBooks`, `MapBooks`, `Budgets`, `SpaceAreas`, `Vma`,
  `AddressSpaces`, `MapOver`, `ForkIsolation`, `Exec` and `UserMemory` model `kernel/mm.c`,
  `kernel/vma.c` and `kernel/sys/exec.c`. Physical memory is a sequence of frames of 1024 words, and page
  tables are words in those frames. `Books` is the whole memory as a value: the frames,
  which address space has which frame at which place, and what is free.
- **Scheduler and processes.** `SchedModel` is the scheduler as a value, with one
  function for each interrupt-disabled section. `SchedInv`, `SchedRuns`, `SchedSleep`,
  `NoLostWakeup`, `LostWakeup`, `BoundedWaiting`, `Reaping`, `ActiveSpace` and `Undoing`
  prove properties of every run, and `SchedMeaning` says of threads, deadlines and places
  in the lists what the functions compute. `Scheduler` is the class with the linked records of
  `kernel/sched.c`, proved to do what the functions say. `Lists` and `Rings` hold the
  linked-list reasoning.
- **Descriptors.** `FileRefs`, `Files` and `WriteLoop` model `kernel/io` and
  `kernel/sys/write.c`.
- **Boot loader.** `Crc32` and `Stage2Loader` model the kernel load of
  `boot/stage2/stage2.asm`.
- **The kernel as a whole.** `KernelTies` says how the three tables belong together,
  `KernelOutcomes` what each system call comes to, and `Kernel` composes scheduler,
  memory and descriptors under fork, execve, waitpid, exit and the timer. Its ghost field
  `now` is the whole kernel as one value, which the three parts are proved to hold.

A pointer is the index of a record in its pool, and -1 is NULL. A panic in the source is
a precondition that every caller is proved to meet. Tick counts are unbounded; the 32-bit
deadline of a sleeper is written out, and so are the 32-bit length of a reserved range
and the 32-bit sum in the range check of a mapping. Several predicates are written
`true == (...)`, which makes the verifier treat them as one fact. Some, such as
`AddressSpaces.Memory.Is`, are written as a quantifier over one object or value, which
keeps it from looking inside where it need not.

`dafny verify dfyconfig.toml` checks everything.

## Model

| member | source | states |
|---|---|---|
| `Kernels.Kernel.Fork` | kernel/sys/fork.c:8-26 | fork returns a child exactly if there is a process slot, room for a copy of the address space (one slot, as many free frames as the parent has, as many free area records), a thread slot and enough descriptor entries. The child then has the parent's pages, areas and descriptors and is ready to run. Otherwise scheduler, frames, live address spaces, areas, records and reference counts are what they were. Either way words 768 to 1023 of every live directory, and of the loaded one, are the kernel directory's, which has not changed |
| `Kernels.Kernel.Execve` | kernel/sys/exec.c:113-176 | a kernel process is refused. For a user process, exec succeeds exactly if the image is 1 to 4096 bytes and there are an address-space slot, four frames and two area records, and each error code has its exact condition. The new space then has its two areas and is loaded, every byte at 0x40000000 and above reads as the image's and then zero, and all frames and areas of the old space are free. Otherwise nothing has changed. Either way every directory has the kernel's upper half, which has not changed |
| `Kernels.Kernel.KernelIsMapped` | kernel/mm.c:67-80 | in every state of the kernel, words 768 to 1023 of the loaded directory and of the directory of every live address space are those of the kernel directory |
| `Kernels.Kernel.Waitpid` | kernel/sched.c:895-945 | up to the point where it returns or blocks: a pid below -1 is invalid. It reaps the first zombie in the child list among the children that the pid names (any for -1), with its address space, and reports its code. The no-child error comes exactly if no child has that pid, or for -1 if there is none. Otherwise the thread becomes the first waiter, for that pid or for any |
| `Kernels.Kernel.ThreadExit` | kernel/sched.c:408-486 | the step of the model. The last thread of a process gives up its descriptors, and every other process's entries and the files they name are what they were |
| `Kernels.Kernel.Reschedule` | kernel/sched.c:318-351 | after every switch the current process's directory is the one in CR3 |
| `Kernels.Kernel.TimerInterrupt` | kernel/sched.c:509-531 | a tick and the switch it may force are one step of the model and keep scheduler, memory and descriptors tied together |
| `Kernels.Kernel.UserStore` | kernel/vma.c:126-128 | a store by the current user process changes its own image alone, as far as its page entries permit, and keeps scheduler, memory and descriptors tied together |
| `Kernels.Kernel.ReapChild` | kernel/sched.c:865-893 | the zombie's frames, areas and records are free again; its address space was not the loaded one |
| `Kernels.Kernel.ProcAllocRoot` | kernel/sched.c:618-714 | a process without a parent: made exactly if there is a slot and room for its address space, with three standard descriptors if three entries are free and with none otherwise |
| `Kernels.Kernel.ProcAllocChild` | kernel/sched.c:618-669 | a child with its parent's context and a copy of its parent's address space, made exactly if there is room, and otherwise no trace |
| `Kernels.Kernel.constructor` | kernel/sched.c:134-163 | the state after boot satisfies the invariant that all other operations keep |
| `KernelOutcomes.ForkFailSettles` | kernel/sys/fork.c:19-23 | taking a half-made child down again restores the system and memory, whichever allocation failed |
| `ForkIsolation.ForkIsolates` | kernel/mm.c:125-202 | for any interleaving of stores by any address spaces after a fork, what parent and child read is the parent's image at the fork overlaid with the reader's own permitted stores |
| `UserMemory.AccessIs` | kernel/vma.c:126-128 | reads and writes by user code are the two-level walk on the words of memory: entry va/4 MiB of the directory, entry va/4 KiB mod 1024 of the table, each with the bits present, user and, for a write, writable; any other access faults and changes nothing |
| `UserMemory.RegionReads` | kernel/vma.c:136-188 | after a mapping that succeeded, each byte of the region reads as the data's and then zero, and user code may write there exactly if the protection says so |
| `UserMemory.ImageIsThere` | kernel/sys/exec.c:125-161 | each byte of the code page at 0x40000000 reads as the image's and then zero, each byte of the stack page at 0x40001000 as zero, and both are writable |
| `PageTables.MixedStores` | kernel/mm.c:125-202 | the view of one address space after any mixture of stores is its view after its own stores alone |
| `PageTables.OnePlacePerFrame` | kernel/mm.c:136-182 | no frame has two places in the page tables of all live address spaces |
| `FrameBooks.EachFrameOnce` | kernel/mm.c:102-241 | in sound books a frame of a live address space is allocated, not the kernel's, not reserved, and reachable from exactly one place |
| `AddressSpaces.Memory.Create` | kernel/mm.c:41-123 | fails exactly when frames or slots have run out and then changes nothing; otherwise a directory whose words 0 to 767 are zero and whose words 768 to 1023 are the kernel directory's, on top of all that was there |
| `AddressSpaces.Memory.Clone` | kernel/mm.c:125-202 | a copy with equal entry flags and contents in frames of its own, with equal areas, and with the kernel's words 768 to 1023 in its directory, made exactly if slot, frames and records suffice; otherwise frames, live spaces, areas and records are what they were |
| `AddressSpaces.Memory.Destroy` | kernel/mm.c:204-241 | every frame and area record of the address space is given back, each once and none refused; nothing else changes |
| `AddressSpaces.Memory.Switch` | kernel/mm.c:246-266 | CR3 holds the directory of the address space |
| `AddressSpaces.Memory.MapRegion` | kernel/vma.c:111-192 | succeeds exactly if the range is accepted, a record is free and there are frames for the pages and the missing tables. It then maps exactly those pages with the data followed by zeros, spends exactly those frames and lists the area in order. On failure no area is listed and every mapping that was there stays |
| `AddressSpaces.Memory.MapPages` | kernel/vma.c:136-188 | the page loop maps all pages exactly if the frames suffice, and otherwise a prefix of them |
| `AddressSpaces.Memory.UserStore` | kernel/vma.c:126-128 | a store by user code changes one word if the page is mapped, present, writable and user-accessible, and nothing otherwise; the books stay sound |
| `MapOver.KeepsFramesIff` | kernel/vma.c:170-172 | after a page entry is written, every frame that had a place, and the new one, has a place if and only if the page was not mapped |
| `MapOver.OldFrameIsLost` | kernel/vma.c:170-172 | the frame of a page that is mapped over has no place in any live address space, so that no teardown gives it back |
| `MapOver.MappedOverIsLost` | kernel/vma.c:170-172 | an address space with one page, and the mapping that loses its frame |
| `AddressSpaces.Memory.CloneTables` | kernel/mm.c:136-182 | the nested copy loops end with equal user halves, or with no frame left |
| `AddressSpaces.Memory.FreeTables` | kernel/mm.c:220-235 | the nested teardown loops give back all pages and tables, in order |
| `Budgets.CopyTells` | kernel/mm.c:136-182 | a copy completes exactly if there were as many free frames as the original has |
| `Budgets.SpentIs` | kernel/vma.c:136-188 | mapping a range takes one frame for each page and one for each table that was missing |
| `Budgets.MirrorSize` | kernel/mm.c:136-182 | an address space that has a frame only where another has one has no more frames than it, and fewer if it lacks one |
| `CloneBooks.GoneUndoesAtop` | kernel/mm.c:145-192 | destroying a space built on top of others brings back free set, owners and all contents in use |
| `PageTeardown.OnlyDirectory` | kernel/mm.c:220-237 | after the two loops the directory is the only frame that is left |
| `PageBytes.PageReads` | kernel/vma.c:175-185 | a page filled from data reads as the data followed by zeros |
| `PageBytes.PutNext` | kernel/vma.c:175-185 | storing one byte more turns the page of a prefix into the page of the longer prefix |
| `SpaceAreas.AreasCloned` | kernel/mm.c:184-199 | with equal pages, the parent's areas fit the child: disjoint, and every page of every area mapped |
| `SpaceAreas.RangeCheckIffNoWrap` | kernel/vma.c:116 | a range that passes the check lies in the user half if and only if its end does not wrap |
| `SpaceAreas.WrappingRangeIsAccepted` | kernel/vma.c:116 | the last page of the address space passes the check |
| `Vmas.VmaPool.Insert` | kernel/vma.c:45-64 | the record becomes the head if the list is empty or the head starts later; otherwise it goes behind the head, before the first other record that does not start earlier |
| `Vmas.VmaPool.Remove` | kernel/vma.c:66-84 | exactly the given record leaves the list, and an absent one changes nothing |
| `Vmas.VmaPool.DestroyAll` | kernel/vma.c:86-96 | exactly the records of the list become free |
| `Vmas.VmaPool.Find` | kernel/vma.c:98-109 | NULL exactly if no area contains the address, otherwise the only one that does |
| `Vmas.VmaPool.CloneAreas` | kernel/mm.c:184-199 | the child's areas are a prefix of the parent's, and all of them exactly if there are enough free records |
| `Vmas.InsertedDisjoint` | kernel/vma.c:45-64 | inserting a clear area keeps the list sorted and disjoint |
| `Exec.ImageReads` | kernel/sys/exec.c:125-161 | user code reads the image and then zeros from the code page, and zeros from the stack page |
| `Exec.Stage` | kernel/sys/exec.c:113-161 | staging succeeds exactly if the image has 1 to 4096 bytes and slot, frames and records suffice, and each error code has its exact condition; on failure nothing has changed, the old image included |
| `Exec.Commit` | kernel/sys/exec.c:173-176 | the new directory is loaded before the old address space goes, so the active one is never destroyed |
| `Exec.ExecReplaces` | kernel/sys/exec.c:173-176 | after the commit the old frames are free, and all other frames keep place and contents |
| `Regions.RegionTable.ReserveRange` | kernel/kmem.c:368-467 | ends for every table; each result code has its exact condition; on success the table stays canonical and the covered run is the range joined with all it overlaps or touches, transitively |
| `Regions.RegionTable.MergeAll` | kernel/kmem.c:391-429 | the fixed-point loop ends with a span that nothing left in the table overlaps or touches |
| `Regions.SettledIsRun` | kernel/kmem.c:391-429 | a settled span is the smallest run that holds the range and everything connected to it |
| `Regions.CompactCanonical` | kernel/kmem.c:441-450 | dropping the tombstones leaves non-empty entries that neither overlap nor touch |
| `Regions.ExactIffRunFits` | kernel/kmem.c:431-450 | the bytes covered are the old ones and the range, and no others, if and only if the run is shorter than 4 GiB |
| `Regions.FullAddressSpaceIsLost` | kernel/kmem.c:431-450 | two halves of the address space merge into an entry of length zero, which is dropped |
| `Regions.RegionTable.IsRegionReserved` | kernel/kmem.c:291-312 | true exactly if some byte of the range is reserved |
| `Pmm.Manager.Init` | kernel/kmem.c:234-278 | there is a bit for each whole frame of memory, below 4 GiB; the free frames are exactly those above 1 MiB of which no byte is reserved and none holds the bitmap |
| `Pmm.Manager.MemInit` | kernel/kmem.c:84-164 | the bytes reserved are exactly those of the first megabyte, of the kernel image and of map entries that are not usable, below 4 GiB; the free frames are exactly those above 1 MiB of which no byte is reserved and none holds the bitmap, so none that touches the kernel image |
| `Pmm.Manager.BmSetRangeTouched` | kernel/kmem.c:194-202 | exactly the frames that the range touches are taken |
| `Pmm.Manager.BmClearRangeFullPages` | kernel/kmem.c:205-217 | exactly the frames that lie inside the range become free |
| `Pmm.Manager.GetNextAvailableBlock` | kernel/kmem.c:666-720 | the first clear frame in cyclic order from the hint, and only its bit flips; out of memory exactly at a count of zero; the inconsistency code is never returned |
| `Pmm.Manager.AllocSpecificBlock` | kernel/kmem.c:613-629 | each status has its exact condition; only the given frame changes |
| `Pmm.Manager.DeallocSpecificBlock` | kernel/kmem.c:633-661 | each status has its exact condition; only the given bit is cleared and the hint moves to it |
| `Pmm.Manager.QueryBitmap` | kernel/kmem.c:350-362 | true exactly for an aligned address in range whose frame is taken |
| `Pmm.Manager.ReserveRange` | kernel/kmem.c:368-467 | bits and table change together: the frames that the range touches are taken, and no others if the run fits |
| `Pmm.Manager.ReservePageframe` | kernel/kmem.c:479-519 | the first clear frame in cyclic order; the count falls by exactly one even if the region coalesces; what is reserved grows by exactly that frame. It is refused exactly if the table is full and no entry overlaps or touches that frame |
| `Pmm.FrameRunFits` | kernel/kmem.c:431-439 | reserving a frame makes a run that fits 32 bits if and only if some byte below 4 GiB stays unreserved |
| `Pmm.FrameAddedKeeps` | kernel/kmem.c:479-519 | reserving a frame keeps every other unreserved byte unreserved, every reserved one reserved, and low memory reserved |
| `Pmm.FreeFrameIsSpare` | kernel/kmem.c:479-519 | while another frame is free, a byte below 4 GiB stays unreserved |
| `Pmm.AllocThenFree` | kernel/kmem.c:633-720 | allocating and giving back restores bitmap and count |
| `Pmm.Serve` | kernel/kmem.c:479-720 | any request keeps bits, count, hint and table consistent, and none reports an inconsistency; what is handed out was free and is not any more, only what is returned becomes free, and what was reserved stays so |
| `Pmm.ServeAll` | kernel/kmem.c:479-720 | over any sequence of requests no frame is handed out again before it is returned, and none of which a byte was reserved at the start is handed out at all, up to and including a request that reserves the last bytes below 4 GiB |
| `Pmm.BootAndServe` | kernel/kmem.c:84-720 | from boot on, whatever is asked for: no frame of the first megabyte, none that touches the kernel image and none that holds unusable memory is handed out, and none twice, with the same exception |
| `Pmm.FirstFreeIs` | kernel/kmem.c:679-709 | a frame is the first in cyclic order if and only if it is free and no free frame lies between the hint and it, around the end of memory if need be |
| `Pmm.FramesByBytes` | kernel/kmem.c:194-217 | the touched frames are those that hold some byte of the range, the inside frames those all of whose bytes are in it |
| `Bitmap.BitIs` | kernel/kmem.c:51-62 | bit i of a byte is worth 2 to the i |
| `Bitmap.ClearUndoesSet` | kernel/kmem.c:51-62 | clearing a bit that was just set gives the same bytes back |
| `SchedRuns.AlwaysConsistent` | kernel/sched.c:165-406 | in every state of every run the ring visits each thread in use once, at most one thread runs and it is the current one, the sleep queue holds exactly the sleeping threads, the waiter lists exactly the blocked ones, and the current thread is no reaped slot |
| `SchedRuns.StepInv` | kernel/sched.c:165-863 | every step keeps these |
| `SchedRuns.BootInv` | kernel/sched.c:134-163 | they hold after boot |
| `NoLostWakeup.NoWakeupIsLostIff` | kernel/sched.c:353-453 | for any number of threads: in every state of a run each blocked thread has a matching child and no matching child is a zombie, if and only if every step of the run is attended. An exit of a process is attended if at most one thread waits for it, a reap if no blocked thread of the parent waits for that child alone, every other step always |
| `NoLostWakeup.StepKeepsWaitsIff` | kernel/sched.c:353-453 | one step keeps this if and only if it is attended |
| `NoLostWakeup.ZombieIsNotNeeded` | kernel/sched.c:865-893 | a reap of a zombie is always attended |
| `NoLostWakeup.NoWakeupIsLost` | kernel/sched.c:353-453 | so in every run in which no process has a second thread, a thread blocked for one child has it in its child list, alive, and one blocked for any child has children, all alive |
| `NoLostWakeup.BootNoneLost` | kernel/sched.c:134-163 | the state after boot satisfies its hypotheses |
| `NoLostWakeup.ExitWakesAllIff` | kernel/sched.c:577-591 | after a child's exit no thread of the parent still waits for it if and only if at most one did |
| `NoLostWakeup.LastExitIs` | kernel/sched.c:433-591 | the last thread of a process leaves a zombie with its code, and the first thread on the waiter list of the parent that waits for any child or for this one is woken and leaves the list; nothing else changes |
| `NoLostWakeup.OnlyWaiterWakes` | kernel/sched.c:577-591 | a thread that alone waits for a process is runnable after its last exit |
| `NoLostWakeup.SecondWaiterIsLost` | kernel/sched.c:577-591 | with two waiting threads of one process, one stays blocked on a zombie |
| `NoLostWakeup.OnlyChildIsTaken` | kernel/sched.c:865-893 | with one thread of a process blocked on its only child, a reap of that child by another thread, before the child has run, leaves it blocked without a child |
| `KernelOutcomes.ForkKeepsWaits` | kernel/sys/fork.c:8-26 | a fork as one step, whether it succeeds or takes its child down again, leaves nobody waiting in vain |
| `LostWakeup.ReachTwoWaiters` | kernel/sched.c:353-363 | that state is reached from boot |
| `BoundedWaiting.RunsWithinBounds` | kernel/sched.c:201-210 | a runnable thread in a ring of n threads runs within n switches, and within 10 n ticks, whatever the others do |
| `BoundedWaiting.SwitchCloser` | kernel/sched.c:318-351 | each switch runs the thread or brings it nearer |
| `BoundedWaiting.UntilItRuns` | kernel/sched.c:509-531 | while it waits, switches and ticks use up a budget |
| `SchedMeaning.SwitchPicks` | kernel/sched.c:201-351 | a switch goes to the first thread that can run, counting on around the ring from the current one, itself last |
| `SchedMeaning.SwitchStates` | kernel/sched.c:318-351 | and no thread changes but the one that ran and the one that runs |
| `SchedMeaning.TickPendsIff` | kernel/sched.c:509-531 | a tick asks for a switch exactly if one was asked for, ten ticks are used up, or a sleeper is due |
| `SchedMeaning.InterruptGoesOn` | kernel/sched.c:318-531 | a timer interrupt goes on around the ring exactly then, among those awake after it, and otherwise lets the current thread go on |
| `SchedMeaning.SleepMeans` | kernel/sched.c:488-500 | the deadline is the sum in 32 bits, and the sleeper stands behind exactly those whose deadline is no later |
| `SchedSleep.TickWakesExactly` | kernel/sched.c:509-524 | a tick wakes exactly the sleepers whose deadline has come |
| `SchedSleep.NobodyOversleeps` | kernel/sched.c:509-524 | who still sleeps after a tick has a later deadline |
| `SchedSleep.SleepsUntil` | kernel/sched.c:488-524 | in every run a sleeper is left alone until the tick of its deadline |
| `SchedSleep.WakesThen` | kernel/sched.c:509-524 | and is awake after that tick |
| `SchedSleep.SleepsFullTimeIff` | kernel/sched.c:493 | in every run that begins with a sleep of n ticks the thread is asleep until the n-th timer interrupt (the first, if n is 0) and awake after it, if and only if the deadline fits 32 bits or n is at most 1 |
| `SchedSleep.LateDeadlineWakesEarly` | kernel/sched.c:493 | a consistent state in which a sleep of five ticks ends after one |
| `SchedSleep.SleepQueuesFifo` | kernel/sched.c:165-180 | a new sleeper goes behind exactly those whose deadline is no later |
| `SchedSleep.RunKeepsOrder` | kernel/sched.c:165-199 | in every run the sleeper behind another stays behind it while that one sleeps |
| `Reaping.WaitpidExact` | kernel/sched.c:809-945 | a child is reported only if it is a listed, matching zombie, and then it can be reaped; the no-child error comes exactly when none matches |
| `Reaping.WaitpidAnswers` | kernel/sched.c:809-945 | the same said of the pid that is given: the first zombie in the child list with that pid, or any for -1, with its code; no child exactly if no child has that pid |
| `Reaping.WaitpidReportsExit` | kernel/sched.c:433-945 | in every run, what waitpid reports for a process is the code its last thread exited with, and a process that has exited is found by its pid until it is reaped |
| `Reaping.ExitCodeKept` | kernel/sched.c:433-486 | a process whose last thread has left stays a zombie with that code until it is reaped |
| `Reaping.ReapedIsGone` | kernel/sched.c:829-893 | the process slot is free and on no child list; its thread slot is free and on no queue |
| `Reaping.ReapSparesOthers` | kernel/sched.c:829-893 | nothing of any other process changes but the child lists the child was on |
| `Reaping.ReapedOnce` | kernel/sched.c:865-893 | in every run a slot is reaped again only after a new process has taken it |
| `ActiveSpace.AlwaysLoaded` | kernel/sched.c:318-351 | in every state of every run the current thread's process is in use, and its address space, if it has one, is the one in CR3 |
| `ActiveSpace.NeverDestroysLoaded` | kernel/mm.c:204-212 | in every run, what reap and exec destroy is not loaded |
| `Undoing.ForkUndone` | kernel/sched.c:270-316 | a new process with a thread that has not run leaves no trace when it is taken down |
| `Undoing.NewProcUndone` | kernel/sched.c:727-760 | nor does one without a thread |
| `Scheduler.Scheduler.DoSwitch` | kernel/sched.c:318-351 | the code on linked records does what the model's switch does |
| `Scheduler.Scheduler.NextRunnable` | kernel/sched.c:201-210 | the first runnable thread in ring order, or none |
| `Scheduler.Scheduler.SleepqInsert` | kernel/sched.c:165-180 | the thread goes behind those whose deadline is no later |
| `Scheduler.Scheduler.SleepqRemove` | kernel/sched.c:182-199 | exactly that thread leaves the queue |
| `Scheduler.Scheduler.ThreadSleep` | kernel/sched.c:488-500 | as the model's sleep: the current thread sleeps, with the deadline in 32 bits |
| `Scheduler.Scheduler.OnTick` | kernel/sched.c:509-531 | as the model's tick: the loop over the queue wakes exactly the due prefix |
| `Scheduler.Scheduler.BlockCurrent` | kernel/sched.c:353-363 | as the model's block: the current thread becomes the first waiter of its process |
| `Scheduler.Scheduler.WakeThread` | kernel/sched.c:377-406 | a sleeping or blocked thread leaves its queue and is runnable; another is left alone |
| `Scheduler.Scheduler.WakeParentWaiter` | kernel/sched.c:577-591 | the first thread on the parent's waiter list that waits for any child or for this one becomes runnable and leaves the list, and nothing else changes; with none, nothing does |
| `Scheduler.Scheduler.ThreadExit` | kernel/sched.c:433-486 | as the model's exit: the thread is a zombie with its code, and the process has a thread less or is a zombie with the code |
| `Scheduler.Scheduler.AllocThreadSlot` | kernel/sched.c:65-77 | the first free slot from the last id on, with no free slot between, around the end if need be; none exactly if all are in use |
| `Scheduler.Scheduler.AllocProcSlot` | kernel/sched.c:79-87 | the lowest free slot, or none |
| `Scheduler.Scheduler.NewThread` | kernel/sched.c:212-268 | the thread joins its process and the end of the ring; fails exactly without a free slot |
| `Scheduler.Scheduler.TakeProc` | kernel/sched.c:618-647 | a cleared slot, on no list; fails exactly without a free slot |
| `Scheduler.Scheduler.ListProc` | kernel/sched.c:649-669 | the process is the last child of its parent |
| `Scheduler.Scheduler.RunqUnlink` | kernel/sched.c:548-575 | exactly that thread leaves the ring, whose head moves on if need be |
| `Scheduler.Scheduler.ThreadReap` | kernel/sched.c:829-863 | the thread leaves ring, sleep queue and thread list, and its slot is free |
| `Scheduler.Scheduler.ProcFree` | kernel/sched.c:727-760 | the process leaves its parent's children, and its slot is free |
| `Scheduler.Scheduler.ReapProc` | kernel/sched.c:865-893 | all threads of the zombie go, then the process |
| `Scheduler.Scheduler.Unfork` | kernel/sys/fork.c:19-23 | a half-made child goes and the system is as before |
| `Scheduler.Scheduler.FindZombieChild` | kernel/sched.c:809-822 | the first zombie in the child list that has the pid waited for, or any if any is, or none |
| `Scheduler.Scheduler.LookForChild` | kernel/sched.c:895-945 | the outcome of one pass of waitpid: no child exactly if none has the pid waited for; a child reported is such a zombie, with its code; to block, no such child is a zombie |
| `Scheduler.Scheduler.Boot` | kernel/sched.c:134-163 | the idle process with its thread |
| `FileRefs.EntryPutExact` | kernel/io/openfile.c:15-51 | an entry that is counted names a file with a positive count, so no underflow panic; giving it up keeps every count exact |
| `FileRefs.CreatorPutExact` | kernel/io/openfile.c:37-51 | the creator's put keeps every count exact and frees the file exactly if no entry names it |
| `FileRefs.FileMadeExact` | kernel/io/fdpool.c:48-70 | a new open file names its target and counts its creator, the count of its target rises by one, nothing else changes, and every count stays exact |
| `FileRefs.FileUsedIff` | kernel/io/openfile.c:15-51 | an open file is in use exactly while its creator or an entry that names it holds it |
| `FileRefs.TargetUsedIff` | kernel/io/fdpool.c:48-143 | a target is in use exactly while its creator or an open file on it holds it |
| `FileRefs.DropOnTop` | kernel/io/fdman.c:25-34 | taking back an added entry frees nothing that was there before |
| `FileRefs.NothingOnTop` | kernel/io/fdman.c:25-34 | once all added entries are taken back, every entry and count is what it was |
| `Files.FileTable.AllocEntry` | kernel/io/fdpool.c:89-104 | a free entry that names the file, and none exactly if all are in use |
| `Files.FileTable.AllocFile` | kernel/io/fdpool.c:48-70 | a file that names the target, whose count rises by one, and whose creator holds it; every other file, target and entry is as before; none exactly if all are in use |
| `Files.FileTable.AllocTarget` | kernel/io/fdpool.c:124-143 | a target whose creator holds it, with every count exact; none exactly if all are in use |
| `Files.FileTable.PutFile` | kernel/io/openfile.c:37-51 | the count falls by one; at zero the file is free and names nothing, its target loses one and at zero is free too; nothing else changes |
| `Files.FileTable.Release` | kernel/io/openfile.c:37-51 | after the creator's put the file exists exactly if an entry names it, every other file is as before, and files and targets are in use exactly while something holds them |
| `Files.FileTable.ForkCopy` | kernel/io/fdman.c:12-57 | a list with the parent's files and numbers in order, or nothing, exactly as there are enough free entries |
| `Files.FileTable.ForkFds` | kernel/sched.c:270-316 | the child has the parent's descriptors if and only if there are as many free entries; otherwise counts and lists are as before |
| `Files.FileTable.Bootstrap` | kernel/sched.c:671-710 | entries 0, 1 and 2 on the console if three are free, and otherwise none and no count changed |
| `Files.FileTable.Cleanup` | kernel/sched.c:408-431 | the process's entries go, each once; every other entry names the same file by the same number, files that are left are on the targets they were on, and files and targets are in use exactly while something holds them |
| `Files.FileTable.LocalFd` | kernel/sched.c:716-725 | the file of the first entry with that number, or NULL exactly if none has it |
| `WriteLoop.OpenFile.WriteCopyin` | kernel/sys/write.c:18-58 | the result, the advance of the offset and the length of what was delivered are equal, and what was delivered is a prefix of the buffer, for every backend that takes at most what it is offered and every fault point. All is written, without error, or the write stops at the first chunk of 128 bytes that cannot be read, is refused or is taken in part, with the matching error |
| `Crc32.TableByteIsSerialByte` | boot/stage2/stage2.asm:629-642 | two table lookups equal eight steps of the bit-serial CRC (section 8 of RFC 1952), for every register and byte |
| `Crc32.NibbleRoundIsFourSteps` | boot/stage2/stage2.asm:1210-1214 | one lookup in the sixteen-entry table equals four bit-serial steps |
| `Crc32.TableFoldIsChecksum` | boot/stage2/stage2.asm:663-670 | the value after the final complement is the CRC-32 of the bytes |
| `Crc32.CheckValue` | boot/stage2/stage2.asm:505 | the checksum of no bytes is 0, that of the digits 1 to 9 is 0xCBF43926 |
| `Crc32.FoldSplits` | boot/stage2/stage2.asm:589-661 | the register carried over any split of the data is the register of the whole |
| `Crc32.ByteCorruptionIsDetected` | boot/stage2/stage2.asm:663-688 | changing one byte of an image of any length changes its checksum |
| `Stage2Loader.NextClusterInvertsPack` | boot/stage2/stage2.asm:878-909 | the next-cluster lookup inverts 12-bit packing for odd and even clusters |
| `Stage2Loader.EntryIs` | boot/stage2/stage2.asm:878-909 | which half of the shared byte belongs to an even and to an odd entry |
| `Stage2Loader.FirstSectorIff` | boot/stage2/stage2.asm:512-522 | cluster 2 is the first of the data area and others follow; the 16-bit sector number is right if and only if 16 bits can hold it |
| `Stage2Loader.FarSectorWraps` | boot/stage2/stage2.asm:512-522 | a volume whose second cluster is taken from sector 0 |
| `Stage2Loader.ClustersApart` | boot/stage2/stage2.asm:512-534 | different clusters have no sector in common |
| `Stage2Loader.FileByteIs` | boot/stage2/stage2.asm:507-561 | which sector a byte of a file is in, and where in it |
| `Stage2Loader.FirstFileIs` | boot/stage2/stage2.asm:507-561 | a file in consecutive clusters from 2 on is the data area from its first byte on |
| `Stage2Loader.Loader.CopyClusterToHimem` | boot/stage2/stage2.asm:589-661 | exactly the bytes that remain, at most a cluster, are copied and summed; no other memory changes |
| `Stage2Loader.CopiedIff` | boot/stage2/stage2.asm:598-620 | the 16-bit byte count is what remains, at most a cluster, if and only if a cluster has fewer than 65536 bytes or what remains is within the truncated count |
| `Stage2Loader.LoadEndsIff` | boot/stage2/stage2.asm:598-652 | what remains of a file that is not empty comes down to zero if and only if the sectors per cluster are no multiple of 128 |
| `Stage2Loader.BigClusterNeverLoads` | boot/stage2/stage2.asm:598-652 | with 128 sectors to a cluster what remains never falls |
| `Stage2Loader.Loader.ParseKernel` | boot/stage2/stage2.asm:503-587 | the load ends on every FAT, cyclic ones included; it succeeds exactly if the chain is whole up to the size; each failure names the link that broke |
| `Stage2Loader.LoadAndVerify` | boot/stage2/stage2.asm:503-688 | memory from 1 MiB holds exactly the first bytes of the chain's clusters, each byte as it is in its sector if the clusters are on the disk, and the image is accepted exactly if its CRC-32 is the expected one or the check is skipped |

## Findings

Properties that do not hold of the code on all inputs. Each has a concrete failing case
and the exact condition under which the property holds.

- **A mapping range can wrap.** The check at kernel/vma.c:116 adds start and size in 32
  bits. `SpaceAreas.WrappingRangeIsAccepted` gives a range above the user half that
  passes. `SpaceAreas.RangeCheckIffNoWrap`: an accepted range lies in the user half if and
  only if its end does not wrap.
- **A merged range of 4 GiB is lost.** The length is cast to 32 bits at
  kernel/kmem.c:431-450. `Regions.FullAddressSpaceIsLost` merges two halves into an entry of
  length zero. `Regions.ExactIffRunFits`: coverage is exact if and only if the merged run
  is shorter than 4 GiB. For page frames `Pmm.FrameRunFits` states this as a byte that stays
  unreserved.
- **A wakeup can be lost.** Only the first matching waiter wakes (kernel/sched.c:577-591).
  `NoLostWakeup.SecondWaiterIsLost` shows a thread left blocked on a zombie, in a state that
  `LostWakeup.ReachTwoWaiters` reaches from boot. `NoLostWakeup.ExitWakesAllIff`: all waiters
  are woken if and only if at most one waits for the child. Beside it there is a second
  kind of step, of the model only: `NoLostWakeup.OnlyChildIsTaken` shows a child that is
  reaped before it has run while another thread waits for it. In the code only a failed
  fork does this, within one system call and with interrupts off, since the gate is an
  interrupt gate (kernel/prekinit/prekinit_idt.asm:49); `KernelOutcomes.ForkKeepsWaits` shows
  that it leaves nobody waiting. `NoLostWakeup.StepKeepsWaitsIff` and
  `NoLostWakeup.NoWakeupIsLostIff` are the exact conditions over both kinds, for a step and
  for a run.
- **A late deadline wakes early.** The deadline is stored in 32 bits
  (kernel/include/sched.h:86, kernel/sched.c:493). `SchedSleep.LateDeadlineWakesEarly` shows
  a sleep of five ticks that ends after one. `SchedSleep.SleepsFullTimeIff`: the sleep has
  its full length if and only if the deadline fits 32 bits or at most one tick was asked
  for.
- **A page mapped over another loses its frame.** kernel/vma.c:172 writes the entry without
  looking at it. `MapOver.MappedOverIsLost` is one such mapping. `MapOver.KeepsFramesIff`:
  every frame keeps a place if and only if the page was not mapped.
- **A far cluster is read from the wrong sector.** The sector number is kept in 16 bits
  (boot/stage2/stage2.asm:521). `Stage2Loader.FarSectorWraps` shows a cluster that is taken
  from sector 0. `Stage2Loader.FirstSectorIff`: the number is right if and only if 16 bits can
  hold it.
- **Clusters of 64 KiB do not load.** The byte count of a cluster is kept in 16 bits
  (boot/stage2/stage2.asm:601). `Stage2Loader.BigClusterNeverLoads` shows a load that makes
  no progress. `Stage2Loader.LoadEndsIff`: what remains comes down to zero if and only if the
  sectors per cluster are no multiple of 128. `Stage2Loader.CopiedIff` says when the count is
  right.

## Left out

- NoLostWakeup.NoWakeupIsLost: for runs in which each process has at most one thread; NoWakeupIsLostIff is the theorem for all runs.
- AddressSpaces.Memory.MapRegion: requires that the range does not wrap and is not mapped yet, which the code does not check; SpaceAreas.RangeCheckIffNoWrap and MapOver.KeepsFramesIff say what happens otherwise. On failure the pages mapped so far stay with the address space, as in the code, until it is destroyed.
- Stage2Loader.Loader.CopyClusterToHimem: for 1 to 127 sectors to a cluster; CopiedIff and LoadEndsIff say what happens otherwise. The build sets 1.
- Stage2Loader.Loader.ParseKernel: for such volumes, and for images that end below 4 GiB.
- Stage2Loader.LoadAndVerify: as ParseKernel.
- Kernels.Kernel.Waitpid: one pass of the loop, up to where it returns or blocks; the option check, and copying the status out, are not modelled.
- Kernels.Kernel.Execve: begins after the path has been copied in and matched. The branch at kernel/sys/exec.c:166-172, which a check at the start rules out, and the trap frame are not modelled.
- Kernels.Kernel.ThreadExit: does not reparent children, as the code does not; listed children point to their parent, and the converse is not claimed.
- Pmm.Manager.MemInit: asks for a byte above 1 MiB outside the kernel and all unusable map entries, without which no memory could be managed.
- pmm_reserve_pageframe_seq (kernel/kmem.c:526-609), whose shrinking loop stops at the highest blocked frame, and pmm_alloc_frame (kernel/kmem.c:317-346), which the other allocation paths replace.
- Paging bring-up, the high-half remap, kernel virtual addresses and TLB flushes; the temporary windows onto page tables are direct access to frames and never fail.
- Demand mapping inside the record pools (kernel/dpage.c); a pool hands out the lowest free slot of a fixed number.
- Trap-frame assembly, thread stacks and names, and the descriptor-table and task-state registers.
- Kernel object callbacks other than the backend's write; reading, console and keyboard.
- The fd count field of a process, the separate in-use flag of a thread record, which is its state here, and the separate main-thread pointer, which is the head of the thread list.
- Disk read errors and retries, the parameter file and the root directory search of the boot loader.
- errno tables, block devices and user programs.
