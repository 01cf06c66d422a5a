# Kerosene: a model of the kernel's core in Dafny

Kerosene is a small x86 kernel. This project models the parts of it that carry the most
state and proves what they promise over every input, every run and every reachable state.

* **Scheduler, semaphores, pipes.** `Scheduler.dfy` gives each scheduler call as a function
  on the queues, the process records and the semaphores. `Partition.dfy` proves that over every run
  each process is at exactly one place and the ready queue never runs dry; `Timing.dfy` that
  sleeping is exact and round robin has a bound; `SleepWrap.dfy` reaches the one case where a
  sleep is cut short. `Semaphore.dfy` covers the counting semaphores alone.
  `PipeProtocol.dfy` runs any number of readers and writers through the segments between
  blocking points, in any interleaving; `PipeBuffer.dfy` is the block chain below it and
  `PipeNode.dfy` the two together.
  `ProcessQueue.dfy` is the intrusive linked queue, link by link.
* **Memory.** `Bits.dfy`, `Frames.dfy`, `FrameObject.dfy`: the frame bitmap, its cached
  counter and the search for the lowest free run. `PageTable.dfy`, `AddressSpace.dfy`,
  `PageTableObject.dfy`: two-level page tables, which walks a mapping changes, and the life of an
  address space. `Heap.dfy`, `HeapObject.dfy`, `HeapHistory.dfy`: the first-fit heap with
  boundary tags.
* **Filesystems.** `RamDir.dfy`, `RamDirObject.dfy`: directories of the RAM filesystem as
  sets of entries. `FatChain.dfy`, `FatObject.dfy`: FAT32 cluster chains. `ChunkedRead.dfy`,
  `RamFile.dfy`, `FatFile.dfy`: reading a file in pieces on both filesystems. `LongName.dfy`,
  `LongNameObject.dfy`, `DuplicateTest.dfy`: FAT32 long names and the search for existing ones.
* **Exact arithmetic.** `Calendar.dfy`, `FatTime.dfy`: `gmtime`, `mktime` and FAT
  timestamps. `Raster.dfy`: lines and circles.

Code that updates state in place is a class whose methods are proved against functions on
values; the theorems over runs are about those functions. The constants KERNEL_START =
0xc0000000 and PROCESS_ALIVE_TICKS = 4 are those of `example.env`. Counters and products
wrap where the C types do (semaphore counts at 2^32, tick counts at 2^64, the usage test of
the frame allocator and the allocation sizes of the heap at 2^32, the year product of
`mktime` at 32 bits).

Some properties do not hold of the code for all inputs. For each, one member shows an input
on which it fails and another says, for all inputs, when the code meets it:

* a release that wraps the counter (`Semaphores.OneReleaseCanWrap`, `Semaphores.ConservedIffNoWrap`);
* idle giving up the CPU (`Partition.IdleMustNotSleep`, `Partition.NullPopExactly`);
* a sleep whose target reaches 2^64 (`SleepWrap.WrapReached`, `Timing.SleepFullyIff`);
* heap sizes within a header of 2^32 (`HeapObject.OversizedBlock`, `HeapObject.Heap.Alloc`);
* frames freed past the end of memory (`Frames.FreePastEndBreaksCount`, `Frames.FreeOneGoodIff`);
* frames allocated for an address space and never mapped (`AddressSpaces.LeakExample`, `AddressSpaces.LifeRestores`);
* directory names of 256 characters and more (`RamDirs.LongNamesBreakUniqueness`, `RamDirs.CallRefinesSet`);
* a directory without its dot entries (`RamDirs.RemovingDotBreaksTest`, `RamDirs.EmptinessExactIff`);
* a directory iterator used after it reported the end (`RamDirObject.FullBlockStartsOver`, `RamDirObject.EndRepeatsIff`);
* freed chains whose clusters run backwards (`FatChains.HintMissesFreed`, `FatChains.FreeKeepsHintIff`);
* empty reads at a block boundary (`RamFiles.EmptyReadSkipsNode`, `ChunkedReads.CursorKeptIff`);
* the search for an existing name, when the directory holds a long name whose length is a
  multiple of 13: a name that is there is missed (`DuplicateTests.DuplicateMissed`) or one that
  is not is refused (`DuplicateTests.FalseDuplicate`; `DuplicateTests.HitIff` for one entry,
  `DuplicateTests.AnswersRightIff` for the search);
* long names of 255 characters (`LongNames.TerminatorFitsIff`);
* weekdays of days that a 32-bit count cannot hold (`Calendar.WeekdayFails`, `Calendar.Gmtime`);
* the leap-day formula in the year 0 (`Calendar.LeapDaysFailsAtZero`; `Calendar.LeapDaysIsSum` for every later one);
* `mktime` past the year 5885486 (`Calendar.InverseFails`, `Calendar.Inverse`);
* FAT dates outside 1980 to 2107 (`FatTime.RoundTripFails`, `FatTime.RoundTrip`);
* two pixels of every circle (`Raster.MissingIsNearest`, `Raster.DrawCircle`).

## Model

| member | source | states |
|---|---|---|
| Semaphores.Semaphore.constructor | kernel/src/semaphore.c:6-12 | A new semaphore has the given count and no waiter. |
| Semaphores.Semaphore.Acquire | kernel/src/semaphore.c:21-36 | A request is granted at once exactly when the count covers it and otherwise queued last; a settled semaphore stays settled. |
| Semaphores.Semaphore.Release | kernel/src/semaphore.c:38-54 | The draining loop wakes exactly the waiters that the specification wakes and leaves the semaphore settled. |
| Semaphores.DrainPaysForPrefix | kernel/src/semaphore.c:41-53 | The loop serves a prefix of the queue, the counter pays exactly for it, and the next waiter does not fit. |
| Semaphores.ReleaseWakesLongestPrefix | kernel/src/semaphore.c:38-54 | A prefix of the waiters is woken if and only if its requests fit in the new count; nobody else moves; no wakeup is lost. |
| Semaphores.HistoryIsFifo | kernel/src/semaphore.c:21-54 | Over every history the head waiter never fits, and blocked requests are served in the order in which they blocked. |
| Semaphores.HistoryConserves | kernel/src/semaphore.c:21-54 | Over every history count plus grants equals initial count plus releases, less 2^32 for each wrap. |
| Semaphores.ConservedIffNoWrap | kernel/src/semaphore.c:21-54 | Count plus grants equals initial plus released if and only if no release wrapped the counter. |
| Semaphores.OneReleaseCanWrap | kernel/src/semaphore.c:40-40 | A history whose one release wraps. |
| Partition.EveryRunPartitions | kernel/src/process/scheduler.c:22-273 | From boot, over every run in which idle never gives up the CPU, no pop finds the ready queue empty, each process is at exactly one place, the global list holds exactly the live processes, and every semaphore is settled. |
| Partition.StepKeeps | kernel/src/process/scheduler.c:53-273 | Every call succeeds and keeps the placement of all processes. |
| Partition.RunKeeps | kernel/src/process/scheduler.c:53-273 | So does every sequence of calls, from any well-placed state. |
| Partition.PlacedPartitions | kernel/src/process/scheduler.c:22-51 | A consistent placement means that every live process is in exactly one of current, ready, sleep, delete, one semaphore queue, or suspended behind one child. |
| Partition.NullPopExactly | kernel/src/process/scheduler.c:59-72 | A call runs a null process if and only if it gives up the CPU with nobody ready (and, for a kill, no parent to resume). |
| Partition.IdleMustNotSleep | kernel/src/process/scheduler.c:226-234 | Idle alone, sleeping, makes the pop fail. |
| Partition.YieldKeeps | kernel/src/process/scheduler.c:59-72 | Yielding keeps the placement and never fails. |
| Partition.AcquireKeeps | kernel/src/semaphore.c:21-36 | Acquiring, granted or blocking, keeps the placement. |
| Partition.ReleaseKeeps | kernel/src/semaphore.c:38-54 | Releasing moves exactly the woken processes to the ready queue. |
| Partition.SpawnKeeps | kernel/src/process/scheduler.c:53-57 | A new process joins the global list and the ready queue only. |
| Partition.AttachKeeps | kernel/src/process/scheduler.c:77-89 | The parent is suspended behind the child it attaches and in no queue. |
| Partition.KillKeeps | kernel/src/process/scheduler.c:207-224 | A killed process is in the delete queue only and its suspended parent becomes ready. |
| Partition.SleepKeeps | kernel/src/process/scheduler.c:226-234 | A sleeper is in the sleep queue only. |
| Partition.TickKeeps | kernel/src/process/scheduler.c:236-273 | A timer tick deletes zombies, wakes sleepers and switches, and keeps the placement. |
| Partition.KillHandsCode | kernel/src/process/scheduler.c:207-224 | A killed process hands its exit code to the parent it was attached from and to nobody else; that parent goes to the back of the ready queue; idle is not killed. |
| Partition.AttachLinks | kernel/src/process/scheduler.c:77-89 | An attached process knows its parent and runs after everyone who is ready. |
| Partition.ReleaseReadies | kernel/src/semaphore.c:38-54 | A release makes the longest prefix of the waiters that the new count covers ready, in their order, behind everyone who was ready, and does not switch. |
| Partition.ListChanges | kernel/src/process/scheduler.c:53-248 | A tick drops the zombies and nobody else from the global list and the records, a new process joins at the end, and no other call changes the list. |
| Partition.ZombieGoes | kernel/src/process/scheduler.c:244-248 | Over every run without a tick a killed process stays listed, and the next tick removes it. |
| Timing.SleepFromBoot | kernel/src/process/scheduler.c:226-263 | In every state that a run from boot reaches, sleep(n) lasts exactly max(1, n) ticks, or one tick if the shared tick count plus n reaches 2^64, whatever every other process does meanwhile and for however long; the last tick makes the caller ready. |
| Timing.SleepFullyIff | kernel/src/process/scheduler.c:226-263 | There sleep(n) lasts max(1, n) ticks whatever follows if and only if n <= 1 or the shared tick count plus n stays below 2^64. |
| Timing.SleepLasts | kernel/src/process/scheduler.c:226-263 | The same law from any well-placed state with an ordered sleep queue. |
| Timing.SleepIsExact | kernel/src/process/scheduler.c:244-263 | Over every run a sleeper stays asleep while fewer ticks than its remaining count have passed, and the last one makes it ready. |
| Timing.RunKeepsOrder | kernel/src/process/scheduler.c:226-263 | Every run keeps the sleep queue sorted and the shared tick count from ever wrapping. |
| SleepWrap.WrapReached | kernel/src/process/scheduler.c:226-263 | A run from boot after which a sleep of 8 ticks lasts one: two processes take turns, so that somebody always sleeps and the shared tick count reaches 2^64 - 8. |
| SleepWrap.Rounds | kernel/src/process/scheduler.c:244-272 | Such turns bring the shared tick count to any multiple of four up to 2^64 - 8. |
| Timing.SleeperStep | kernel/src/process/scheduler.c:226-263 | One call of any kind, as a sleeper sees it: a tick takes one from its remaining ticks or makes it ready, anything else changes nothing. |
| Timing.InsertedSorted | kernel/src/process/process_queue.c:18-41 | Sorted insertion keeps the sleep queue sorted and adds exactly one process. |
| Timing.WakesInOrder | kernel/src/process/scheduler.c:250-263 | The sleepers whose target is reached become ready in the order of their targets, the others stay, and the shared tick count restarts when nobody is left. |
| Timing.RoundRobin | kernel/src/process/scheduler.c:59-72 | A process at ready index k becomes current within PROCESS_ALIVE_TICKS * (k + 1) ticks under any mix of calls. |
| Timing.RunsByDeadline | kernel/src/process/scheduler.c:265-272 | The same with the exact deadline, which also counts the ticks already used in the current quantum. |
| Timing.TickSwitchesIff | kernel/src/process/scheduler.c:265-272 | On a tick the current process gives up the CPU if and only if its new tick count is a multiple of PROCESS_ALIVE_TICKS; it then goes to the back of the ready queue; nobody else is charged. |
| Timing.QuantumIsExact | kernel/src/process/scheduler.c:265-272 | Over every run in which it makes no call that gives up the CPU, a process that has used k ticks of its quantum runs through exactly PROCESS_ALIVE_TICKS - k more, and the last one sends it to the back. |
| Timing.StepIsFifo | kernel/src/process/scheduler.c:59-72 | No call lets anyone overtake a ready process. |
| Scheduling.WithoutTwice | kernel/src/process/scheduler.c:244-248 | Deleting zombies one after another is deleting them together. |
| Scheduling.BumpPhase | kernel/src/process/scheduler.c:265-272 | The wrap of the tick counter does not disturb the quantum. |
| SchedulerObject.Scheduler.constructor | kernel/src/process/scheduler.c:275-290 | The boot state: idle is current and alone. |
| SchedulerObject.Scheduler.AddProcess | kernel/src/process/scheduler.c:53-57 | The queues change as the specification says. |
| SchedulerObject.Scheduler.ToNext | kernel/src/process/scheduler.c:59-72 | Switching agrees with the specification, including when it would run a null process. |
| SchedulerObject.Scheduler.Attach | kernel/src/process/scheduler.c:77-89 | Attaching agrees with the specification. |
| SchedulerObject.Scheduler.Kill | kernel/src/process/scheduler.c:207-224 | Killing agrees with the specification. |
| SchedulerObject.Scheduler.SetSleep | kernel/src/process/scheduler.c:226-234 | Sleeping agrees with the specification; the insertion loop finds the sorted place. |
| SchedulerObject.Scheduler.DeleteZombies | kernel/src/process/scheduler.c:244-248 | The loop over the delete queue removes every zombie from the global list. |
| SchedulerObject.Scheduler.WakeSleepers | kernel/src/process/scheduler.c:250-263 | The loop wakes exactly the due prefix and resets the tick count when the last sleeper leaves. |
| SchedulerObject.Scheduler.Switch | kernel/src/process/scheduler.c:236-273 | The timer handler agrees with the specification, whose switch `Timing.TickSwitchesIff` pins to the quantum. |
| SchedulerObject.Scheduler.Acquire | kernel/src/semaphore.c:21-36 | Blocking on a semaphore and switching agree with the specification. |
| SchedulerObject.Scheduler.Release | kernel/src/semaphore.c:38-54 | Waking agrees with the specification. |
| ProcessQueues.Queue.Push | kernel/src/process/process_queue.c:7-16 | The linked queue gains one process at its end. |
| ProcessQueues.Queue.SortedPush | kernel/src/process/process_queue.c:18-41 | The process goes before the first one that is not strictly earlier; all links stay right. |
| ProcessQueues.Queue.Pop | kernel/src/process/process_queue.c:43-52 | The head leaves, or null is returned from an empty queue. |
| ProcessQueues.InsertionKeepsOrder | kernel/src/process/process_queue.c:18-41 | The insertion point chosen keeps a sorted queue sorted. |
| PipeProtocol.EveryRunIsFifo | kernel/src/filesystem/ramfs.c:752-882 | For any readers and writers and any interleaving: what was read is a prefix of what was written, the rest is in the pipe, the pipe never exceeds 2048 bytes, and node size, byte tokens, space tokens and the lock always balance; what was read and what was written are the records of the calls, put together in critical-section order. |
| PipeProtocol.StepKeeps | kernel/src/filesystem/vfs_op.c:419-483 | Every segment of the lock, operate, unlock bracket succeeds and keeps the balance and the records of what each call moved. |
| PipeProtocol.EveryCallMoves | kernel/src/filesystem/ramfs.c:752-882 | Over every schedule a finished call moved at least one byte and at most its request, one with an empty request moved none, and a writer moved the first bytes of its data. |
| PipeProtocol.CriticalMoves | kernel/src/filesystem/ramfs.c:774-877 | In its critical section a reader takes min(request, bytes that no other reader holds a token for) from the front, a writer puts min(request, room that no other writer holds a token for) at the back. |
| PipeProtocol.ReadKeeps | kernel/src/filesystem/ramfs.c:763-822 | A reader's bulk acquire never blocks and it finds every byte that it has a token for. |
| PipeProtocol.WriteKeeps | kernel/src/filesystem/ramfs.c:835-882 | A writer's bulk acquire never blocks and what it writes fits. |
| PipeProtocol.NoHoldAndWait | kernel/src/filesystem/ramfs.c:763-772 | Nobody waits for anything while holding the node lock. |
| PipeProtocol.RestsOnlyWhenOneSided | kernel/src/filesystem/ramfs.c:752-882 | When nobody can step, everyone is finished, or only readers are left and the pipe is empty, or only writers are left and it is full. |
| PipeProtocol.SomebodyCanRun | kernel/src/filesystem/vfs_op.c:437-449 | With an unfinished reader and an unfinished writer somebody can step, and does so without a fault. |
| PipeProtocol.EveryScheduleEnds | kernel/src/filesystem/ramfs.c:752-882 | Every schedule has at most six segments for each call, and one that cannot go on leaves everyone finished, or only readers and an empty pipe, or only writers and a full one. |
| PipeProtocol.StepWorks | kernel/src/filesystem/vfs_op.c:419-483 | Every segment leaves less to do, however many others it wakes. |
| PipeProtocol.ReleaseEffect | kernel/src/filesystem/ramfs.c:818-819 | Released units end up in the counter or with woken processes, and nobody else notices. |
| PipeProtocol.AcquireEffect | kernel/src/filesystem/ramfs.c:763-772 | A requested unit leaves the counter for the caller, or the caller queues. |
| PipeBuffers.PipeBuffer.Read | kernel/src/filesystem/ramfs.c:784-816 | The copying loop takes the first n bytes out of the block chain; blocks are freed from the front only and the last one stays. |
| PipeBuffers.PipeBuffer.Write | kernel/src/filesystem/ramfs.c:846-877 | The copying loop appends all bytes to the chain. |
| PipeBuffers.ReadChunk | kernel/src/filesystem/ramfs.c:784-816 | One copy inside the first block is a prefix of the contents. |
| PipeBuffers.WriteChunk | kernel/src/filesystem/ramfs.c:846-877 | One copy into the last block appends to the contents. |
| PipeNodes.StepNode | kernel/src/filesystem/ramfs.c:752-882 | Every segment of the protocol, run on the block chain, leaves the chain holding what the protocol says; what the copying loop moved is the record of the call, and is not empty. |
| PipeNodes.PlayNode | kernel/src/filesystem/ramfs.c:752-882 | After any schedule the block chain holds exactly what was written and not yet read. |
| FrameObject.FrameAllocator.constructor | kernel/src/mem/pmmngr.c:176-182 | At first every frame counts as used and the counter says so. |
| FrameObject.FrameAllocator.SetBit | kernel/src/mem/pmmngr.c:10-12 | One bit of the bitmap is set and no other changes. |
| FrameObject.FrameAllocator.UnsetBit | kernel/src/mem/pmmngr.c:13-15 | One bit is cleared and no other changes. |
| FrameObject.FrameAllocator.TestBit | kernel/src/mem/pmmngr.c:16-18 | The bit of that frame. |
| FrameObject.FrameAllocator.FindFirstFreeBlock | kernel/src/mem/pmmngr.c:20-37 | The lowest free frame below total, or -1 if and only if there is none; skipping full words and stopping in the last word loses nothing. |
| FrameObject.FrameAllocator.FindFirstFree | kernel/src/mem/pmmngr.c:38-66 | The lowest free run of that length, or -1 if and only if there is none; the skip after a broken run loses nothing. |
| FrameObject.FrameAllocator.UpdateUsage | kernel/src/mem/pmmngr.c:70-98 | The counter becomes the number of set bits below total, padding bits not counted. |
| FrameObject.FrameAllocator.InitRegion | kernel/src/mem/pmmngr.c:109-117 | The region becomes free except frame 0. |
| FrameObject.FrameAllocator.DeinitRegion | kernel/src/mem/pmmngr.c:119-125 | The region becomes used. |
| FrameObject.FrameAllocator.AllocBlock | kernel/src/mem/pmmngr.c:127-138 | Allocates the lowest free frame; the counter stays exact. |
| FrameObject.FrameAllocator.AllocMultiBlock | kernel/src/mem/pmmngr.c:139-151 | Allocates the lowest free run, also when the 32-bit sum of the usage test wraps. |
| FrameObject.FrameAllocator.FreeBlock | kernel/src/mem/pmmngr.c:152-161 | Frees one frame for any address that the bitmap covers: that bit is cleared unless it is that of frame 0, and no other changes. |
| FrameObject.FrameAllocator.FreeMultiBlock | kernel/src/mem/pmmngr.c:162-174 | A bit is clear afterwards if and only if it was clear or is one of the cnt bits from a frame other than 0 and below total; the counter stays exact for every argument. |
| FrameObject.AllocThenFree | kernel/src/mem/pmmngr.c:139-174 | Allocating any number of blocks and freeing them through the two calls restores bitmap and counter; the allocation succeeds if and only if a free run exists. |
| FrameObject.ShortcutExact | kernel/src/mem/pmmngr.c:139-142 | When the usage test refuses, no free run of that length exists. |
| Frames.AllocExact | kernel/src/mem/pmmngr.c:127-151 | A request succeeds if and only if it is positive and a free run of that length exists; it takes the lowest one, never frame 0, and the counter stays equal to the set bits. |
| Frames.SkipUsed | kernel/src/mem/pmmngr.c:48-61 | A used frame rules out every run start up to and including it. |
| Frames.FreeOneGoodIff | kernel/src/mem/pmmngr.c:152-161 | Freeing one frame keeps the counter exact if and only if the frame is below total or the call does nothing. |
| Frames.FreePastEndBreaksCount | kernel/src/mem/pmmngr.c:157-160 | Freeing the first address past the end of memory makes the counter wrong. |
| Frames.AllocFreeRestores | kernel/src/mem/pmmngr.c:139-174 | Allocating a run and freeing it restores bitmap and counter. |
| Frames.RunLeavesRoom | kernel/src/mem/pmmngr.c:139-142 | A free run of n frames leaves at most total - n frames in use. |
| Bits.SetEffect | kernel/src/mem/pmmngr.c:10-12 | OR-ing the mask of bit j sets that bit of the word and keeps the other 31. |
| Bits.UnsetEffect | kernel/src/mem/pmmngr.c:13-15 | AND-ing with its complement clears that bit and keeps the other 31. |
| Bits.TestsAgree | kernel/src/mem/pmmngr.c:16-34 | Shifting the word and masking the word test the same bit. |
| Bits.FullWord | kernel/src/mem/pmmngr.c:23-23 | A word equal to 0xffffffff has no clear bit. |
| PageTables.MapChangesOneWalk | kernel/src/mem/vmmngr.c:104-175 | Whether or not a table is created, mapping changes the walk of one page below the recursive window and of no other; bit j of that page's flags is set if and only if j is 0, it was set before or it was requested. |
| PageTables.MappedWalk | kernel/src/mem/vmmngr.c:133-162 | The mapped page leads to the given frame; requested flags are added to those already there. |
| PageTables.JoinedFlag | kernel/src/mem/vmmngr.c:160-162 | A written entry has the present bit, the bits it had and the requested ones, and no other. |
| PageTables.MappedFlags | kernel/src/mem/vmmngr.c:133-162 | The same, bit by bit, of the mapped page and of the directory entry of a created table; an existing table keeps its flags. |
| PageTables.OtherWalk | kernel/src/mem/vmmngr.c:122-162 | Any other page outside the window keeps its whole walk, flags included. |
| PageTables.WindowWalk | kernel/src/mem/vmmngr.c:133-134 | In the recursive window a walk changes if and only if it is that of the table just created. |
| PageTables.MapSucceedsIff | kernel/src/mem/vmmngr.c:122-129 | Mapping fails, changing nothing, if and only if it needs a table and no frame is free. |
| PageTables.MapKeepsWellFormed | kernel/src/mem/vmmngr.c:104-175 | The tables of a directory stay distinct used frames. |
| PageTables.OtherDirectory | kernel/src/mem/vmmngr.c:104-175 | Another directory that does not share the written table keeps all its walks. |
| PageTables.UnmapChangesOneWalk | kernel/src/mem/vmmngr.c:177-220 | Unmapping removes the walk of one page and keeps all others. |
| AddressSpaces.LifeRestores | kernel/src/mem/vmmngr.c:239-304 | Creating a directory, allocating, mapping and unmapping in any way and freeing the directory restores bitmap and counter if and only if no allocated frame was left unmapped; what is missing is exactly those frames. |
| AddressSpaces.LifeChangesOneWalk | kernel/src/mem/vmmngr.c:104-270 | Over every life of a directory made from a kernel directory whose own tables are distinct used frames, each event changes the walk of its own page below the recursive window and of no other. |
| AddressSpaces.LifeLeaks | kernel/src/mem/vmmngr.c:273-304 | A frame allocated and never mapped is still taken after the directory is freed. |
| AddressSpaces.LeakExample | kernel/src/mem/vmmngr.c:273-304 | For instance with two of three frames free. |
| AddressSpaces.WalkIsMap | kernel/src/mem/vmmngr.c:104-175 | Below KERNEL_START the page tables are a flat map from pages to frames. |
| AddressSpaces.StepHolds | kernel/src/mem/vmmngr.c:104-220 | Every allocation, mapping and unmapping keeps tables, ownership and allocator in agreement. |
| AddressSpaces.StepOneWalk | kernel/src/mem/vmmngr.c:104-220 | Allocating changes no walk, mapping and unmapping that of one page, and the tables stay distinct used frames. |
| AddressSpaces.MapHolds | kernel/src/mem/vmmngr.c:104-175 | So does a mapping, in an existing or a new table. |
| AddressSpaces.UnmapHolds | kernel/src/mem/vmmngr.c:177-220 | An unmapped frame stays allocated and belongs to no page. |
| AddressSpaces.CreateHolds | kernel/src/mem/vmmngr.c:239-270 | A new directory maps nothing below KERNEL_START and owns one frame. |
| AddressSpaces.CreateWellFormed | kernel/src/mem/vmmngr.c:239-270 | Such a new directory has distinct used tables and points to itself. |
| AddressSpaces.CreateSharesKernel | kernel/src/mem/vmmngr.c:249-252 | From KERNEL_START up to the window a new directory leads every page where the kernel's directory does. |
| AddressSpaces.CreatePointsToSelf | kernel/src/mem/vmmngr.c:260-264 | The last entry of a new directory points to it, present and writable. |
| AddressSpaces.FreeReturns | kernel/src/mem/vmmngr.c:273-304 | Freeing returns exactly the directory, its lower tables and the frames that they map. |
| AddressSpaces.FreedIsMapped | kernel/src/mem/vmmngr.c:279-298 | The loops reach every owned table and mapped frame below KERNEL_START and nothing else. |
| PageTableObject.PageManager.Map | kernel/src/mem/vmmngr.c:104-175 | The entries written in place are those of the specification. |
| PageTableObject.PageManager.Unmap | kernel/src/mem/vmmngr.c:177-220 | The entry cleared is that of the specification. |
| PageTableObject.PageManager.AllocDirectory | kernel/src/mem/vmmngr.c:239-270 | The new directory is the kernel's with the last entry pointing to itself. |
| PageTableObject.PageManager.FreePageDirectory | kernel/src/mem/vmmngr.c:273-304 | The nested loops free what the specification frees, in that order, and stop at KERNEL_START. |
| HeapHistory.EveryHistory | kernel/src/mem/heap.c:86-246 | After any history of allocations (of sizes for which size + header fits in 32 bits) and frees the regions tile the heap, no two free ones are adjacent, the live blocks are the used regions, each big enough and with less than 16 bytes to spare, and freeing everything restores the single initial region. |
| HeapHistory.LiveBlocksDisjoint | kernel/src/mem/heap.c:86-246 | Two live blocks never overlap and lie inside the heap. |
| HeapHistory.RunKeeps | kernel/src/mem/heap.c:86-246 | Every sequence of calls keeps the heap invariant. |
| HeapHistory.AllocMatches | kernel/src/mem/heap.c:86-175 | An allocation adds one live block, of at least the requested size and with less than 16 bytes to spare, and moves none. |
| HeapHistory.FreeMatches | kernel/src/mem/heap.c:211-246 | A free removes exactly one live block, whatever regions are merged. |
| Heaps.FirstFit | kernel/src/mem/heap.c:88-116 | The first free region of at least size + header. |
| Heaps.AllocKeepsGood | kernel/src/mem/heap.c:161-175 | Splitting keeps the tiling and the absence of free neighbours. |
| Heaps.SplitIff | kernel/src/mem/heap.c:161-175 | A region is split if and only if 16 bytes or more are left over; the free rest ends where the region did and no other region changes. |
| Heaps.FreeKeepsGood | kernel/src/mem/heap.c:211-246 | Merging on both sides keeps them too. |
| Heaps.RegionsDisjoint | kernel/include/mem.h:68-69 | Different regions never overlap. |
| Heaps.AllFreeIsInitial | kernel/src/mem/heap.c:12-35 | A heap without used regions is one region. |
| Heaps.JoinSpelled | kernel/src/mem/heap.c:224-241 | After a merge every header, with its prev link, spells the merged regions. |
| Heaps.AllocSpelled | kernel/src/mem/heap.c:161-175 | After a split every header, with its prev link, spells the split regions. |
| HeapObject.Heap.constructor | kernel/src/mem/heap.c:12-35 | A new heap is one free region behind the heap record. |
| HeapObject.Heap.Alloc | kernel/src/mem/heap.c:86-209 | A block is returned if and only if some free region holds size + header as 32 bits count it, and it is that of the first such region; otherwise nothing changes. It lies inside the heap if and only if size + header does not wrap. |
| HeapObject.OversizedBlock | kernel/src/mem/heap.c:90-111 | Any new heap with room for 11 bytes grants a request for 2^32 - 1. |
| HeapObject.Heap.Search | kernel/src/mem/heap.c:88-116 | The walk stops at the first free header that is big enough, or at the end. |
| HeapObject.Heap.Carve | kernel/src/mem/heap.c:161-175 | The headers written are those of the split. |
| HeapObject.Heap.Free | kernel/src/mem/heap.c:211-246 | A live block is freed and merged with its free neighbours; any other address changes nothing. |
| HeapObject.Heap.MergeNext | kernel/src/mem/heap.c:224-231 | Merges with a free successor. |
| HeapObject.Heap.MergePrev | kernel/src/mem/heap.c:233-241 | Merges with a free predecessor found through the prev link. |
| HeapObject.NothingToContract | kernel/src/mem/heap.c:68-84 | At its minimum size a heap gives no page back, so the contraction requested by a free does nothing. |
| RamDirs.HistoryRefinesSet | kernel/src/filesystem/ramfs.c:420-605 | Any history of adds and removes, with names of any length, behaves as the same history on a set of entries, and END markers stay a suffix; with names of up to 255 characters names stay unique. |
| RamDirs.CallRefinesSet | kernel/src/filesystem/ramfs.c:420-605 | So does every single call, including the refused ones, which change nothing; a new entry has the name asked for, cut after 255 characters; names stay unique if and only if the stored, cut name does not clash, and a name of up to 255 characters never does. |
| RamDirs.AddedIsInsert | kernel/src/filesystem/ramfs.c:465-485 | Adding inserts exactly one entry. |
| RamDirs.AddedUniqueIff | kernel/src/filesystem/ramfs.c:434-460 | Names stay unique if and only if the stored name was new. |
| RamDirs.RemovedIsDelete | kernel/src/filesystem/ramfs.c:579-605 | Removing deletes exactly one entry, whatever holes are dropped with it. |
| RamDirs.LongNamesBreakUniqueness | kernel/src/filesystem/ramfs.c:55-57 | A name of 256 or more characters is stored truncated and compared in full, so it can be added twice. |
| RamDirs.FreshIteratorVisitsAll | kernel/src/filesystem/ramfs.c:389-418 | A fresh iterator visits each live entry once and nothing else. |
| RamDirs.EmptinessExactIff | kernel/src/filesystem/ramfs.c:529-550 | The emptiness test is right if and only if the directory has a real entry or no hole. |
| RamDirs.EmptinessExact | kernel/src/filesystem/ramfs.c:529-550 | In a directory that begins with its dot entries it is right. |
| RamDirs.MadeStaysExact | kernel/src/filesystem/ramfs.c:624-654 | From mkdir on, over every history that removes neither dot entry, a directory is reported not empty if and only if it has a real entry. |
| RamDirs.HistoryKeepsDots | kernel/src/filesystem/ramfs.c:420-605 | Such a history keeps the dot entries first and the test exact. |
| RamDirs.DotsStayFirst | kernel/src/filesystem/ramfs.c:420-605 | Adding other names and removing other entries keeps the dot entries first. |
| RamDirs.RemovingDotBreaksTest | kernel/src/filesystem/ramfs.c:529-550 | Without "." an empty directory is reported as not empty. |
| RamDirObject.Directory.Scan | kernel/src/filesystem/ramfs.c:434-460 | One pass finds whether the name exists and, if not, the first free slot. |
| RamDirObject.Directory.Add | kernel/src/filesystem/ramfs.c:420-490 | The exact error for every case; success adds the entry, failure changes nothing. |
| RamDirObject.Directory.Insert | kernel/src/filesystem/ramfs.c:465-485 | The entry is written in place and a full last block gets a successor. |
| RamDirObject.Directory.Locate | kernel/src/filesystem/ramfs.c:552-577 | Finds the slot of a node if and only if it is there. |
| RamDirObject.Directory.Remove | kernel/src/filesystem/ramfs.c:525-605 | Removes the entry of a node, or reports that it is not found and changes nothing. |
| RamDirObject.Directory.Vacate | kernel/src/filesystem/ramfs.c:588-602 | Leaves a hole, or moves the end back over it. |
| RamDirObject.Directory.FixEmptyEntries | kernel/src/filesystem/ramfs.c:172-210 | The holes before the end become end markers and the emptied blocks go. |
| RamDirObject.Directory.TrailingHoles | kernel/src/filesystem/ramfs.c:172-198 | Finds the start of the holes before the end. |
| RamDirObject.Directory.Iterate | kernel/src/filesystem/ramfs.c:389-418 | From any slot of any block: the next live entry or the end, and the exact state in which the iterator is left, also at the end. |
| RamDirObject.EndRepeatsIff | kernel/src/filesystem/ramfs.c:393-416 | An iterator that reported the end reports it again if and only if the directory is empty or its last entry is not the last slot of a block. |
| RamDirObject.FullBlockStartsOver | kernel/src/filesystem/ramfs.c:393-416 | With one full block it yields entry 1 again. |
| RamDirObject.EndRunsOff | kernel/src/filesystem/ramfs.c:393-396 | Asked on from the last slot of the last block, it is left past the block. |
| RamDirObject.Directory.TestNotEmpty | kernel/src/filesystem/ramfs.c:529-550 | The scan reports what the specification reports. |
| FatObject.FatTable.Mount | kernel/src/filesystem/fat32.c:1593-1602 | After mounting, the cached count equals a full scan and the hint is a cluster if and only if the volume does not record them or records them right. |
| FatObject.FatTable.CountFreeClusters | kernel/src/filesystem/fat32.c:203-212 | The number of free entries, by a full scan. |
| FatObject.FatTable.Allocate | kernel/src/filesystem/fat32.c:678-737 | The first n free clusters at or after the hint become one new chain, no other chain changes, and the cached count stays equal to the full scan. |
| FatObject.FatTable.LinkFree | kernel/src/filesystem/fat32.c:697-723 | The scanning loop links exactly those clusters in order. |
| FatObject.FatTable.Expand | kernel/src/filesystem/fat32.c:217-233 | The chain grows by the new clusters at its end and no other chain changes. |
| FatObject.FatTable.FreeClusters | kernel/src/filesystem/fat32.c:236-262 | The loop clears exactly the entries of one chain, counts them, and lowers the hint to the start of the chain at most. |
| FatObject.FatTable.Free | kernel/src/filesystem/fat32.c:236-262 | The chain goes, no other chain changes, the cached count stays equal to the full scan. |
| FatObject.FatTable.Cut | kernel/src/filesystem/fat32.c:265-278 | The chain keeps its clusters up to the cut, the rest becomes free, the cached count stays equal to the full scan. |
| FatObject.FatTable.GetLast | kernel/src/filesystem/fat32.c:740-752 | From any cluster of a chain, its last cluster. |
| FatChains.AllocateRep | kernel/src/filesystem/fat32.c:678-737 | Linking free clusters adds one chain, disjoint from all others. |
| FatChains.ExpandRep | kernel/src/filesystem/fat32.c:217-233 | Linking the end of a chain to a new one joins the two. |
| FatChains.FreeRep | kernel/src/filesystem/fat32.c:236-262 | Clearing a chain removes it and touches no other. |
| FatChains.CutRep | kernel/src/filesystem/fat32.c:265-278 | Cutting a chain keeps its front part and frees the rest. |
| FatChains.LinkedCount | kernel/src/filesystem/fat32.c:697-733 | Linking n free clusters lowers the full scan by n. |
| FatChains.ClearedCount | kernel/src/filesystem/fat32.c:246-258 | Clearing n used clusters raises it by n. |
| FatChains.TakenIsFirst | kernel/src/filesystem/fat32.c:697-722 | No free cluster between the hint and the last one taken is passed over. |
| FatChains.FreshVolume | kernel/src/filesystem/fat32.c:203-212 | A table without a used cluster has no chains, every cluster is counted as free, and the first one is a good hint. |
| FatChains.HintCounts | kernel/src/filesystem/fat32.c:691-692 | While nothing is free below the hint, the cached count tells exactly how many clusters the scan can find. |
| FatChains.AllocateKeepsHint | kernel/src/filesystem/fat32.c:732-732 | Allocation leaves nothing free below the new hint. |
| FatChains.FreeKeepsHintIff | kernel/src/filesystem/fat32.c:257-257 | Freeing keeps that if and only if no cluster of the chain lies below both its start and the old hint. |
| FatChains.HintMissesFreed | kernel/src/filesystem/fat32.c:257-257 | A chain that runs backwards loses a free cluster to the scan. |
| ChunkedReads.RepliesJoin | kernel/src/filesystem/file_op.c:147-174 | Whatever sizes are asked for, the replies put together are the next bytes of the file. |
| ChunkedReads.EofExactly | kernel/src/filesystem/file_op.c:157-157 | A reply is end-of-file if and only if the requests before it covered the file. |
| ChunkedReads.CursorIs | kernel/src/filesystem/ramfs.c:956-966 | The cursor stands at block ceil(position / block) - 1, or 0 at the start. |
| ChunkedReads.OffsetFromCursor | kernel/src/filesystem/fat32.c:1513-1517 | With such a cursor, block and offset together are the position. |
| ChunkedReads.CursorKeptIff | kernel/src/filesystem/ramfs.c:221-228 | A read keeps the cursor right if and only if it asks for something or does not stand at a block boundary inside the file. |
| RamFiles.RamFile.ReadNodes | kernel/src/filesystem/ramfs.c:212-266 | n bytes from the offset, short if and only if the chain ends, with the cursor at the last byte read. |
| RamFiles.RamFile.ReadAt | kernel/src/filesystem/ramfs.c:926-967 | Wherever the cursor stands, the bytes that block and offset lead to. |
| RamFiles.RamFile.Read | kernel/src/filesystem/ramfs.c:926-967 | The slice of the file at the position, end-of-file exactly at its size, and the exact condition for the cursor to stay right. |
| RamFiles.ReadAll | kernel/src/filesystem/file_op.c:147-174 | Any sequence of nonzero reads returns the replies of the specification, which together are the next bytes of the file. |
| RamFiles.EmptyReadSkipsNode | kernel/src/filesystem/ramfs.c:956-966 | After an empty read at a node boundary the next read returns the node after the right one. |
| FatFiles.FatFile.ReadClusters | kernel/src/filesystem/fat32.c:430-539 | The same over a cluster chain for any cluster size. |
| FatFiles.FatFile.ReadAt | kernel/src/filesystem/fat32.c:1504-1526 | Wherever the cursor stands, the bytes that cluster and offset lead to. |
| FatFiles.FatFile.Read | kernel/src/filesystem/fat32.c:1504-1526 | The same meaning as for the RAM filesystem. |
| FatFiles.ReadAll | kernel/src/filesystem/file_op.c:147-174 | The same law of whole sequences of reads over FAT32. |
| LongNames.RoundTrip | kernel/src/filesystem/fat32.c:816-835 | Every name of 1 to 254 non-NUL characters, written as long entries and read back, is returned with its terminator, whatever the buffer held before. |
| LongNames.WrittenAre | kernel/src/filesystem/fat32.c:1070-1093 | Of n pieces entry k holds piece n - k and its number, the first one with 0x40 added; its 13 units are the characters of the piece, sign extended, and zeros behind the name. |
| LongNames.FirstEntry | kernel/src/filesystem/fat32.c:38-63 | The entry written first yields the end of the name and its length. |
| LongNames.FullEntry | kernel/src/filesystem/fat32.c:12-31 | Every other entry yields its thirteen characters. |
| LongNames.BufferAfterName | kernel/src/filesystem/fat32.c:943-955 | The whole buffer after a long name was read: the name, a terminator unless its length is a multiple of 13, and behind that what was there before. |
| LongNames.TerminatorFitsIff | kernel/src/filesystem/fat32.c:834-835 | Of names of up to 255 characters, those of up to 254 and no others keep the reader's terminator inside the name array. |
| DuplicateTests.HitIff | kernel/src/filesystem/fat32.c:936-959 | The comparison made at an entry says that a name exists if and only if it is that entry's name, letter case apart, and terminated, or that entry's name is unterminated and what earlier names left in the buffer spells the rest. |
| DuplicateTests.DuplicateFoundIff | kernel/src/filesystem/fat32.c:936-959 | A name that is there is noticed at its entry if and only if it is terminated, or no earlier name is longer and the buffer began with a zero where it ends. |
| DuplicateTests.DuplicateMissed | kernel/src/filesystem/fat32.c:936-959 | Behind a longer name an unterminated one is never noticed. |
| DuplicateTests.FalseDuplicate | kernel/src/filesystem/fat32.c:936-959 | With x and then an unterminated shorter y in the directory, adding the absent name that begins with y and goes on as x is refused. |
| DuplicateTests.AnswersRightIff | kernel/src/filesystem/fat32.c:915-973 | For every name to add and every first content of the buffer the search answers right if and only if no long name in the directory has a length that is a multiple of 13. |
| DuplicateTests.SameIff | libc/src/string/strcmp_case_insensitive.c:4-10 | The comparison gives 0 if and only if the buffer begins with the name, letter case apart, and ends there. |
| DuplicateTests.UpperIff | libc/src/ctype/toupper.c:3-7 | Two bytes are alike if and only if they are equal or the two cases of one letter. |
| DuplicateTests.ReadAllIs | kernel/src/filesystem/fat32.c:936-951 | Each byte of the buffer is that of the last name read that reaches it. |
| LongNameObject.WriteEntries | kernel/src/filesystem/fat32.c:1070-1093 | The writing loop produces ceil(length / 13) entries, last piece first. |
| LongNameObject.WriteEntry | kernel/src/filesystem/fat32.c:1072-1093 | One entry holds the 5 + 6 + 2 characters of its piece and zeros after the terminator. |
| LongNameObject.NameReader.ParseEntry | kernel/src/filesystem/fat32.c:12-31 | The three copying loops copy one run of characters up to a zero or the end of the buffer. |
| LongNameObject.NameReader.ProcessEntry | kernel/src/filesystem/fat32.c:38-63 | The reader's state changes as the specification says. |
| LongNameObject.NameReader.ProcessEntries | kernel/src/filesystem/fat32.c:816-825 | So does a run of entries. |
| Calendar.Gmtime | libc/src/time/gmtime.c:27-81 | For every t >= 0 whose year fits in an int, the valid date whose sum of years, months, days and seconds is t, with the month lengths of the calendar written out; the day of the year; and the weekday (4 + t / 86400) mod 7 if and only if the number of 32-bit wraps of 4 + t / 86400 is a multiple of 7 and the wrapped count is not negative or a multiple of 7, which holds whenever it does not wrap. |
| Calendar.Mktime | libc/src/time/mktime.c:27-53 | For every year from 1 that fits in an int and any other fields, the same sum, off by exactly what the four 32-bit products lose; the first day of each month is that of the calendar. |
| Calendar.Inverse | libc/src/time/mktime.c:27-53 | mktime(gmtime(t)) is t if and only if (year - 1970) * 365 fits in 32 bits. |
| Calendar.InverseFails | libc/src/time/mktime.c:33-33 | The first year whose product wraps does not come back. |
| Calendar.LeapDaysIsSum | libc/src/time/mktime.c:33-37 | The closed-form count of leap days equals the year-by-year sum, from the year 1 on, also before 1970. |
| Calendar.LeapDaysFailsAtZero | libc/src/time/mktime.c:33-37 | In the year 0 it is one day short. |
| Calendar.WeekdayIs | libc/src/time/gmtime.c:72-78 | The weekday computed from the closed form is right for exactly those counts of days. |
| Calendar.WeekdayFails | libc/src/time/gmtime.c:72-78 | The first day whose count needs more than 31 bits gets a wrong weekday. |
| Calendar.DateUnique | libc/src/time/gmtime.c:27-81 | No two valid dates have the same time. |
| Calendar.YearIsMonths | libc/src/time/gmtime.c:15-25 | Twelve months make a year, so the month loop stops by December. |
| Calendar.MonthTable | libc/src/time/gmtime.c:15-25 | All twelve months have the lengths 31, 28 or 29, 31, 30, ... and begin after 0, 31, 59 or 60, 90 or 91, ... days. |
| Calendar.LeapIs | libc/src/time/gmtime.c:9-13 | Leap years are every fourth, less every hundredth, plus every four-hundredth. |
| FatTime.RoundTrip | kernel/src/filesystem/fat32.c:379-399 | Packing gmtime(t) and unpacking through mktime gives the date with an even second and the kept year, which is t - t mod 2 if and only if the year is 1980 to 2107. |
| FatTime.RoundTripFails | kernel/src/filesystem/fat32.c:391-399 | 1 January 1970 and 1 January 2108 both come back as 1 January 1980. |
| FatTime.UnpackIs | kernel/src/filesystem/fat32.c:379-399 | Through the two 16-bit words, what comes back is the date with an even second and the low 7 bits of the year, or 1980 for an earlier one. |
| FatTime.WordsAre | kernel/src/filesystem/fat32.c:391-399 | The two words are sec / 2 + 32 min + 2048 hour and mday + 32 mon + 512 (year - 1980) as numbers, with the year modulo 128 and from 1980 on. |
| FatTime.TimeBits | kernel/src/filesystem/fat32.c:382-394 | The shifts and masks give back the three fields of a time. |
| FatTime.DateBits | kernel/src/filesystem/fat32.c:385-398 | The shifts and masks give back day, month and the low 7 bits of the year. |
| FatTime.YearValue | kernel/src/filesystem/fat32.c:398-398 | The 16-bit word keeps the year since 1980 modulo 128. |
| Raster.DrawAlong | kernel/src/driver/video/framebuffer.c:188-231 | Pixel k of a line takes the nearest number of minor steps, ties to the smaller. |
| Raster.DrawLine | kernel/src/driver/video/framebuffer.c:233-247 | Every pixel is within half a pixel of the true line on the minor axis, both ends are drawn, and there is one pixel for each major step. |
| Raster.NearestUnique | kernel/src/driver/video/framebuffer.c:200-208 | Only one pixel of a column meets that condition. |
| Raster.EndsDrawn | kernel/src/driver/video/framebuffer.c:200-208 | The first and last pixels are the exact end points. |
| Raster.DrawCircle | kernel/src/driver/video/framebuffer.c:249-281 | For r >= 1 a pixel is plotted if and only if -x < x*x + y*y - r*r <= x for its longer offset x and shorter offset y, and it is not the leftmost or topmost one. |
| Raster.CircleStep | kernel/src/driver/video/framebuffer.c:260-266 | The decision variable tracks the next candidate, and the chosen one is nearest until the diagonal is passed. |
| Raster.MissingIsNearest | kernel/src/driver/video/framebuffer.c:253-257 | The two pixels left out are as near as the two plotted twice. |

## Left out

- heap growth and contraction, and page-aligned allocation: a request that needs a larger heap counts as failed.
- HeapHistory.EveryHistory: sizes for which size + header overflows 32 bits are left to HeapObject.Heap.Alloc.
- HeapObject.Heap.Free: an address that was never a block header counts as not being in use; user data that happens to look like a header is not modelled.
- FatObject.FatTable.Allocate: the scan of the code has no end test, so n free clusters at or after the hint are required; `FatChains.HintCounts` says when the cached count guarantees them. Zeroing new clusters is not modelled.
- FatObject.FatTable.LinkFree: see FatObject.FatTable.Allocate.
- FatObject.FatTable.Expand: see FatObject.FatTable.Allocate.
- FatObject.FatTable.Free: the BAD-cluster error paths of free and cut are not modelled, because a chain has no bad entry.
- FatObject.FatTable.Cut: see FatObject.FatTable.Free.
- FAT entry storage in sectors and the four reserved bits of an entry, the FAT32 directory code apart from long names, and writing files.
- the RAM filesystem's write_file over existing data, and seeking in both filesystems.
- RamFiles.RamFile.Read: memory nodes, pipes and files not open for reading, which file_read treats separately, are not modelled.
- FatFiles.FatFile.Read: disk faults and bad clusters are not modelled.
- the pipe when a block allocation fails, and lock or semaphore calls outside the read and write bracket.
- PipeProtocol.EveryRunIsFifo: a segment between two blocking points is one step, because system calls run with interrupts off.
- Partition.EveryRunPartitions: yield always puts the caller back in the ready queue; the variant that does not is left out.
- SchedulerObject.Scheduler.Switch: queues are sequences of process numbers here; the links between processes are modelled in ProcessQueues only.
- RamDirObject.Directory.Iterate: an iterator left past its block (`RamDirObject.EndRunsOff`) reads beyond the block on the next call, which is outside the model.
- RamDirObject.Directory.Add: data nodes are values in a sequence, so pointer identity and the allocator behind them are not modelled; whether an allocation succeeds is a parameter.
- Frames.AllocExact: memory is at most 3 GiB, the size of the bitmap.
- FrameObject.FrameAllocator.constructor: likewise; the code writes past the bitmap for a larger memory, as it does for regions and addresses past 3 GiB.
- FrameObject.FrameAllocator.InitRegion: see FrameObject.FrameAllocator.constructor.
- FrameObject.FrameAllocator.DeinitRegion: see FrameObject.FrameAllocator.constructor.
- FrameObject.FrameAllocator.FreeBlock: see FrameObject.FrameAllocator.constructor.
- PageTableObject.PageManager.Map: physical addresses are page aligned, and the temporary mappings used to reach inactive directories, the TLB and the lazy copying of kernel entries are not modelled.
- AddressSpaces.LifeRestores: the lower half of the kernel's directory is empty, as kernel_entry.asm leaves it.
- AddressSpaces.LifeChangesOneWalk: the kernel's own tables are taken to be distinct frames marked as used; mappings made by other directories in tables they share above KERNEL_START are not events of a life.
- Calendar.Gmtime: times before 1970 and years that do not fit in an int are outside the model; 32-bit signed overflow is taken to wrap.
- Calendar.Mktime: nothing is stated for the year 0 and before, where the leap-day formula fails.
- Raster.DrawLine: coordinates are unbounded integers, and clipping and colours are left to the plotting of a pixel.
- LongNames.RoundTrip: checksums and the short names stored beside long ones.
- DuplicateTests.AnswersRightIff: deleted entries and the steps from cluster to cluster are left out; names have 1 to 254 characters.
- process creation, ELF loading, register frames, TSS, GDT and IDT, page-fault repair.
- VFS path walk, node cache, mounts and reference counts.
- device drivers, the C library's wrappers, the shell and the core utilities: thin, or effects on devices.
