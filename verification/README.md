# SkinnyArm kernel: verified model

SkinnyArm is a small AArch64 kernel. This project models the parts of it that change shared state in
complicated ways, and proves what they keep:

- the **frame allocator** and the **four-level page tables** that are built out of its frames
  (`Kalloc`, `PageTree`, `Macros`, `Vmem`, `Unmap`, `Footprint`, `Regions`, `Teardown`, `Clone`);
- the **process table**, fork, kill, the round-robin scheduler and the context switch
  (`Process`, `Scheduling`, `Kernel`, `Lifecycle`);
- **who owns each physical frame**, over whole runs of all of these together (`Ownership`, `System`, `Runs`),
  and exactly which kills break it (`Kills`);
- the **spin lock** and the **sleep lock** under arbitrary interleaving (`SpinLock`, `SleepLock`);
- the **cpio "newc" parser** that fills the file system at boot (`Cpio`, `RootFs`, `Ramfs`, `Newc`,
  `InitRamfs`, `Listing`), for archives in the New ASCII Format of cpio(5);
- **lines that do something else than intended**, each with the exact condition under which it is
  harmless (`Departures`, and lemmas next to the code concerned).

`dafny verify dfyconfig.toml` checks everything.

## How the model is built

Physical memory is a map from frame addresses to 512 words, and the allocator is a class over it: the free
list is threaded through word 0 of the free frames, as in the C code. A page table is those words and nothing
else. The ghost map `Nodes` (position in the tree to frame) describes it; `PageTree.Tree` says that memory and
description agree, and `PageTree.TreeRefinesMap` that a reader of memory then sees the map of the leaves.
Table words are integers; `Macros` proves that the 64-bit macros compute the same values. The operations are
methods on this memory with the loops of the C code, specified by functions on the description (`Insert`,
`Prune`) whose own properties are proved as lemmas, and by what a page-table walk finds before and after.

The process table is an array of records; its operations are methods. For properties of whole runs the same
operations are steps of a transition system in `Scheduling` (fork is split where an interrupt can come
between), and the methods are proved to perform those steps. Locks are transition systems over single memory
accesses. `Runs.ServeAll` executes an arbitrary sequence of requests on one allocator and one process table.

`kill_process` is modelled for every argument, also where it does harm: pid 0 belongs to the first process, to every
free slot and to every child under construction. `Kills.KillKeepsIff` says when a kill keeps frame ownership in order,
`Scheduling.KillStaysQuiet` when it keeps children under construction safe.

Where a line contradicts the code around it, the model follows the evident intent, and the line as written is
treated separately:

| line | as written | in the model |
|---|---|---|
| kernel/vmem.c:216 | tests the root table at every level | tests the level just reached (`Departures.LiteralGateExact`) |
| kernel/vmem.c:216, 219 | `LVL_ADDR(va,i-1)` expands to a shift by `39 - (i - 1*9)` | the index of level i-1 (`Departures.LiteralIndexExact`) |
| kernel/vmem.c:221, 229, 271-279 | passes the page to `kfree`, which expects the address of a pointer | frees the page (`Departures.LiteralKfreeExact`) |
| kernel/vmem.c:202 | no return value on success | 0 |
| kernel/vmem.c:327, 334, 338 | clone writes to a local array, through an uninitialised pointer, to an unset `tos[1]` | writes to `to` and to the frame just allocated |
| kernel/string.c:22-24 | copies byte 0 over and over | copies the page (`Departures.LiteralStrcpy`) |
| kernel/process.c:62-69 | `create_first_process` never stores the stack frame it allocates | stores it (`Kills.FirstProcessBreaksPartition`) |
| kernel/process.c:100 | assigns instead of comparing | compares (`Lifecycle.LiteralFindAgrees`) |
| kernel/process.c:232 | no return value on success | 0 |
| kernel/process.c:140-142 | `sleep` neither blocks nor retakes the spinlock | does both (`SleepLock.UnfinishedSleepBreaksExclusion`) |

These are modelled as they stand, because the properties hold or fail with them in an interesting way:
`kalloc_init` puts one frame too many on the list (`Departures.LastFrameOverruns`), the root table is freed when
it becomes empty (`Unmap.FreePage`), `map_region` frees frames the allocator never owned when it rolls back
(`Regions.MapRegion` says which, and that the pool takes them in), a child's stack pointer lies outside its stack frame
(`Lifecycle.StackTopOutsideFrame`), `scheduler` overwrites any state of the current process
(`Scheduling.SleepDoesNotSurviveSchedule`), `kill_process` leaves `wait_on` behind
(`Scheduling.StaleWaitWakesChild`), releasing a spinlock stores 0, a real core, as its owner
(`SpinLock.CoreZeroBreaksExclusion`), and `strequal` accepts a prefix (`Ramfs.Rootfs.SearchFile`).

## Model

| member | source | states |
|---|---|---|
| Kalloc.Allocator.constructor | kernel/kalloc.c:10 | before boot the free list is empty |
| Kalloc.Allocator.Init | kernel/kalloc.c:21-46 | the free list is start, start + 4096, ... up to and including the last address <= end, in order; nothing else is written |
| Kalloc.Allocator.ThreadFrames | kernel/kalloc.c:36-45 | the threading loop builds exactly that list, NULL-terminated |
| Kalloc.Allocator.ClearPage | kernel/kalloc.c:49-54 | every word of the frame becomes 0, no other frame changes |
| Kalloc.Allocator.Release | kernel/kalloc.c:57-62 | what kfree writes for any argument at all: that page cleared, linked to the old head, and the new head |
| Kalloc.DoubleFreeCycles | kernel/kalloc.c:57-62 | kfree of a frame that is free already leaves nothing that is a list |
| Kalloc.Allocator.Kfree | kernel/kalloc.c:57-62 | the frame is cleared and becomes the head; the rest of the list and of memory is untouched |
| Kalloc.Allocator.Kalloc | kernel/kalloc.c:65-74 | fails exactly on an empty list; otherwise unlinks and clears the head |
| Kalloc.Allocator.CopyPage | kernel/string.c:21-25 | intended copy: the target holds the source's words, nothing else changes |
| Departures.LastFrameOverruns | kernel/kalloc.c:36 | the last frame on the list always reaches past the end, and starts at the end exactly when the bounds are a whole number of pages apart |
| Departures.ArchiveOnList | kernel/kalloc.c:19-46 | every frame between the bounds is on the list, those of the archive included, despite the comment |
| Departures.LiteralKfreeExact | kernel/vmem.c:221 | kfree on the page itself frees the page iff the page's first word is its own address |
| Departures.LiteralKfreeOfEmptyTable | kernel/vmem.c:229 | on an emptied table, whose first word is NULL, the whole free list is lost and the table stays |
| Departures.LiteralKfreeOfOtherPage | kernel/vmem.c:221 | on a page that starts with another address that frame is freed in its place, and the page stays |
| Departures.LiteralIndexExact | kernel/vmem.c:216-219 | for every address, the unparenthesised macro argument gives the right four indices iff the page is the one lucky page for address bits 55..48 |
| Departures.LiteralIndexCanonical | kernel/vmem.c:216-219 | for user addresses that is page 0, for kernel addresses from VKERN_START up the last page |
| Departures.LiteralGateExact | kernel/vmem.c:216 | the test of levels[0] passes iff the root table has entries for all four indices; on a mapped page, iff it has them for the other three |
| Departures.LiteralStrcpy | kernel/string.c:21-25 | only element 0 is copied; the result equals the source iff the other elements agreed before |
| Macros.IndexBits | kernel/vmem.c:24 | LVL_ADDR on 64-bit words is the model's index, for every address and level |
| Macros.PresentBit | kernel/vmem.c:32-47 | GET_PAGE_SET is the model's presence test |
| Macros.PhysicalBits | kernel/vmem.c:43 | GET_PHYSICAL_ADDR is the model's 36-bit address field |
| Macros.PhysicalRoundTrip | kernel/vmem.c:42-43 | reading back a written address gives it iff it has at most 36 bits; no other bit changes |
| Macros.EntryWords | kernel/vmem.c:64-78 | the four entry macros applied to 0 build exactly the words the model stores |
| PageTree.TreeRefinesMap | kernel/vmem.c:101-167 | walking a well-formed tree in memory finds, for every address, exactly the leaf on the map |
| PageTree.WalkIsLeaf | kernel/vmem.c:105-165 | the same from any level of the walk |
| PageTree.SamePath | kernel/vmem.c:12-24 | two addresses take the same walk iff bits 47..12 agree |
| Vmem.AddNode | kernel/vmem.c:158 | writing one entry for a fresh, empty frame keeps the tree well formed and adds exactly one node |
| Vmem.GivenEntry | kernel/vmem.c:109-126 | an address given by the caller is entered iff its kind is known; the free list stays |
| Vmem.EntryFor | kernel/vmem.c:110-156 | the entry word by level, kind and origin: table, kernel, device or user |
| Vmem.AllocEntry | kernel/vmem.c:127-163 | the entry word for the head of the free list is stored; fails, with the frame given back, iff the list is empty or the kind is unknown at level 3 |
| Vmem.InsertMapped | kernel/vmem.c:105-166 | a mapped address is only looked up |
| Vmem.InsertUnmapped | kernel/vmem.c:105-166 | an unmapped address gets a page iff the kind is known and the missing tables and the leaf can be allocated; which frame, and how many are used |
| Vmem.InsertFrames | kernel/vmem.c:127-163 | every new node's frame comes from the free list, but for a leaf given by address |
| Vmem.GrowthLeaves | kernel/vmem.c:101-167 | growing along an address changes at most the translation of its page |
| Vmem.WalkDown | kernel/vmem.c:105-165 | the loop computes Insert on tree and free list, and the tree stays a tree of disjoint frames |
| Vmem.GetPhysicalPage | kernel/vmem.c:101-167 | a map insert: an existing mapping is returned and never replaced; otherwise the page is mapped iff the kind is 0, 1 or 2 and the frames suffice, to the stated frame, by the entry word for its kind and origin; no other page's translation changes; on NULL none does; the pool frames held are conserved |
| Vmem.MapPage | kernel/vmem.c:174-180 | -1 leaves every translation alone; 0 means the older mapping, the given address or a fresh frame; for an unmapped page exactly when each happens, for a mapped one no change and -1 iff it is mapped at address 0 |
| Unmap.PruneExact | kernel/vmem.c:222-230 | only tables on the path go, and one stays iff something is left below it, the root included |
| Unmap.PruneConserves | kernel/vmem.c:221-230 | every frame that leaves the tree is on the list, and no other |
| Unmap.FreedIsBlank | kernel/kalloc.c:57-62 | a frame on the free list reads as a table without present entries |
| Unmap.Descend | kernel/vmem.c:213-220 | the walk yields five frames iff the address is mapped, and then those on its path |
| Unmap.PruneUp | kernel/vmem.c:222-230 | the upward loop computes Prune; a freed root is left without present entries |
| Unmap.FreePage | kernel/vmem.c:210-231 | intended free_page: exactly this page stops translating, all others translate as before; a table on the path stays iff it still has an entry; the leaf and exactly the emptied tables go to the list; on an unmapped page or a freed root nothing happens |
| Regions.UnmapRegion | kernel/vmem.c:237-242 | exactly the pages of the region stop translating, even if the root is freed on the way; tree and list together hold the same frames, and the pool grows by exactly the frames that were mapped there |
| Footprint.DemandNext | kernel/vmem.c:193-201 | mapping one unmapped page of a region uses up exactly its share of the distinct tables that are missing |
| Footprint.DemandMapped | kernel/vmem.c:193-201 | a page that is already mapped needs no frame |
| Footprint.EnteredFrames | kernel/vmem.c:101-167 | mapping a page leaves tree and list together with the same frames, but for a caller's address that is entered |
| Regions.MapPages | kernel/vmem.c:193-201 | the first m pages are mapped, nothing else changes; all of them iff no page is already mapped at address 0, the kind is known if some page is unmapped, and there is a free frame for every distinct missing table (and for an unmapped page asked for at address 0); frames of tree and list grow by the caller's addresses entered |
| Regions.MapAligned | kernel/vmem.c:193-202 | the same for n whole pages |
| Regions.MapRegion | kernel/vmem.c:188-202 | va, va + size or pa not a multiple of 4096: -1 and no change; success: page k is mapped as asked and nothing else changes; failure: the pages entered before are unmapped, no frame is lost, and the pool grows by exactly the frames that were mapped there and the caller's, so it stays the same on an unmapped region iff no caller's page was entered; success iff no page is already mapped at address 0, the kind is 0, 1 or 2 if some page is unmapped, and the frames suffice; on an unmapped region va + 4096k then translates to pa + 4096k |
| Regions.RegionTranslates | kernel/vmem.c:188-202 | then va + 4096k translates to pa + 4096k for every k; with pa = 0 only page 0 is fresh and page k lands at 4096k |
| Teardown.FreeBelow | kernel/vmem.c:256-277 | a branch goes to the list, table after its contents |
| Teardown.FreeEntries | kernel/vmem.c:251-278 | the loop over a table reads only frames that are not free yet |
| Teardown.FreePagetable | kernel/vmem.c:248-280 | intended teardown: every table and leaf is on the free list exactly once, and nothing else is written |
| Clone.CloneEntries | kernel/vmem.c:329-383 | after the loop the new table covers every branch of the old one |
| Clone.ClonePagetable | kernel/vmem.c:322-385 | intended clone: the copy is a tree with the same positions and its own frames, every address translates in both or in neither, to different pages with the same words, the source is unchanged; success iff there is a frame for every node but the root; then list and copy hold exactly the old list and the target |
| Process.PigeonholePids | kernel/process.c:36-50 | n slots cannot use more than n positive pids |
| Kernel.Machine.constructor | kernel/process.c:13 | a machine in a given well-formed state |
| Kernel.Machine.SwitchTo | kernel/user_context.S:89-113 | all 13 registers go to the old process and come from the new one, whose page table and pointer are installed |
| Kernel.Machine.GetPid | kernel/process.c:36-50 | ends with the least positive pid not in use, at most 65 |
| Kernel.Machine.Scheduler | kernel/process.c:114-133 | ends, and switches to the first RUNNABLE slot after the current one, else the first from slot 0 on; what is saved, marked and loaded |
| Kernel.Machine.Sleep | kernel/process.c:135-143 | the current slot becomes WAITING for the lock, no other slot changes |
| Kernel.Machine.Wakeup | kernel/process.c:146-154 | exactly the slots waiting for this lock become RUNNABLE, with wait_on cleared; every other slot is unchanged |
| Scheduling.SleepsOnWhatItWasGiven | kernel/process.c:135-138 | sleep makes the current process, and no other, wait for the lock passed |
| Scheduling.SleeperStays | kernel/process.c:114-154 | in every run without a kill of it or a wakeup of its lock, a sleeper stays as it is and is never dispatched |
| Scheduling.WokenByItsLock | kernel/process.c:146-154 | after any such run a wakeup makes it RUNNABLE iff it is for its own lock |
| Scheduling.ScanFindsNext | kernel/process.c:120-132 | where the two scans stop is the cyclic successor |
| Scheduling.NextIsUnique | kernel/process.c:114-133 | the scheduler's choice is determined |
| Scheduling.RunKeepsInv | kernel/process.c:91-232 | in every run non-zero pids stay pairwise distinct and at most 65, and the translation base is the current process's |
| Scheduling.CloserOrDispatched | kernel/process.c:119-132 | each scheduler call dispatches p or brings the current slot strictly closer to it |
| Scheduling.BoundedWaiting | kernel/process.c:114-133 | in every run a process that stays RUNNABLE is dispatched within 63 scheduler calls |
| Scheduling.ContextPreserved | kernel/user_context.S:89-113 | whatever runs in between, a process that is not killed resumes with its 13 registers and its page table |
| Scheduling.ContextKept | kernel/process.c:91-232 | while it is away no step touches its saved registers |
| Scheduling.RunKeepsQuiet | kernel/process.c:178-231 | in every run with clean kills, children under construction stay WAITING for no lock and are never current |
| Scheduling.NoHalfBuiltDispatch | kernel/process.c:180-231 | hence no scheduler or wakeup step ever selects one |
| Scheduling.KillStaysQuiet | kernel/process.c:104-109 | a kill keeps that iff its victim waits for no lock, is not the current process and is not under construction |
| Scheduling.StaleWaitWakesChild | kernel/process.c:104-109 | otherwise wakeup makes the slot's next child RUNNABLE before it is built |
| Scheduling.KilledCurrentWakesChild | kernel/process.c:117 | and so does the scheduler, if the current process was killed |
| Scheduling.KilledChildReservedTwice | kernel/process.c:94-109 | and kill_process(0) on a child under construction lets a second fork reserve its slot |
| Scheduling.SleepDoesNotSurviveSchedule | kernel/process.c:117 | a sleeping current process is RUNNABLE after the next scheduler call |
| Lifecycle.ReserveSlot | kernel/process.c:178-188 | the first FREE slot is reserved; -1 iff there is none |
| Lifecycle.ForkStack | kernel/process.c:192-196 | the head of the list becomes the slot's stack frame, or the slot is FREE again and nothing else has changed |
| Lifecycle.ForkTrap | kernel/process.c:198-204 | the head becomes its trap frame, or the stack frame goes back and the slot is FREE without one |
| Lifecycle.ForkFrames | kernel/process.c:190-204 | both frames, or the same free list and a FREE slot |
| Lifecycle.BuildChild | kernel/process.c:206-231 | the child has the caller's registers but sp, the least unused pid, its parent, and is RUNNABLE |
| Lifecycle.PublishedFields | kernel/process.c:206-231 | field by field what a fork puts into the child's slot |
| Lifecycle.KilledFields | kernel/process.c:105-109 | field by field what a kill clears: pid, all 13 registers, state |
| Lifecycle.KillFreesBoth | kernel/process.c:107-108 | word by word what its two kfree calls write |
| Lifecycle.SysFork | kernel/process.c:172-232 | all or nothing, and which: success iff there is a FREE slot and two frames; then exactly one slot changes and owns exactly the two frames that left the list, and the child's stack frame holds what the caller's does; else the list is the same and the table too, but for a FREE slot's stack_frame |
| Lifecycle.FindPid | kernel/process.c:94-103 | the first slot with the pid, -1 iff none |
| Lifecycle.KillProcess | kernel/process.c:91-111 | -1 and no change iff nobody has the pid; else that slot alone is cleared and its two frame pointers are handed to kfree, whatever they are; if they are frames that are not free, they head the list |
| Lifecycle.LiteralFindAgrees | kernel/process.c:94-103 | the search as written is right iff the pid is in slot 0 or nowhere |
| Lifecycle.StackTopOutsideFrame | kernel/process.c:208 | the child's stack pointer is never in its stack frame |
| Lifecycle.ForkRefinesSteps | kernel/process.c:178-231 | a completed fork is a legal reservation and publication |
| Lifecycle.FailedForkRefinesSteps | kernel/process.c:192-202 | a failed one is a reservation given up |
| Lifecycle.KillRefinesStep | kernel/process.c:94-109 | a kill is a legal kill step |
| Ownership.ExchangeKeepsPartition | kernel/kalloc.c:49-74 | moving frames between the list and one owner keeps every pool frame with exactly one owner |
| Ownership.RunConserves | kernel/kalloc.c:49-74 | and so does every sequence of such moves |
| Ownership.Settle | kernel/vmem.c:101-280 | and the page tables of all other owners stay well formed |
| System.TakeFrame | kernel/kalloc.c:65-74 | kalloc on the books: one frame from the list to the caller |
| System.ReturnFrame | kernel/kalloc.c:57-62 | kfree on the books |
| System.NewSpace | kernel/vmem.c:288-294 | a new root table is an empty, well-formed tree |
| System.Grow | kernel/vmem.c:101-167 | get_physical_page moves frames from the list to this tree only |
| System.UnmapPage | kernel/vmem.c:210-231 | free_page moves frames from this tree to the list only |
| System.DropSpace | kernel/vmem.c:248-280 | free_pagetable moves all frames of this tree to the list |
| System.Fork | kernel/process.c:172-232 | sys_fork moves two frames to one slot, or none |
| System.Kill | kernel/process.c:91-111 | kill_process moves one slot's two frames to the list |
| System.BeginFork | kernel/process.c:178-188 | fork in steps: a reserved slot holds no frame, whatever it names |
| System.ForkTakesStack | kernel/process.c:192-196 | the slot under construction holds the first frame taken, or is given up |
| System.ForkTakesTrap | kernel/process.c:198-204 | then both, or the first goes back to the list |
| System.EndFork | kernel/process.c:206-231 | the child's stack frame holds what the caller's does, and publication turns what the fork held into the frames of a live process |
| System.CloneSpace | kernel/vmem.c:322-385 | clone_pagetable moves as many frames from the list to a new tree as the old one has; if they do not suffice, the caller is left with all of them |
| Runs.OnList | kernel/kalloc.c:65-74 | following the links decides membership of the free list |
| Runs.Serve | kernel/process.c:91-232 | one request: ownership stays in order, frames move between the list and one owner only, and the request has its stated effect |
| Runs.MayKill | kernel/process.c:94-103 | a caller can test the condition of a kill before the call |
| Runs.ServeAll | kernel/process.c:91-232 | frame conservation over every sequence of kalloc, kfree, table creation, growth, unmap, teardown, clone, fork (also interrupted between any two of its steps), kill, schedule, sleep and wakeup: at every moment the pool is the disjoint union of free list, tables and leaves, frames of live processes and frames callers hold, each request moves frames between the list and one owner only, each has the stated effect, and completed forks have copied the stack |
| Runs.RecordConserves | kernel/kalloc.c:49-74 | conservation holds at every moment of a recorded run |
| Runs.Boot | kernel/process.c:55-72 | intended: such a run can start right after kalloc_init, if the first process keeps both its frames |
| Kills.FirstProcessAsWritten | kernel/process.c:55-72 | as written: the first frame is lost, slot 0 is live without a stack frame and with sp computed from NULL |
| Kills.FirstProcessBreaksPartition | kernel/process.c:62-69 | with such a slot no account of the frames is in order |
| Kills.KillOfFirstLosesList | kernel/process.c:107-108 | killing it hands NULL to kfree, and only its trap frame is left on the list |
| Kills.KillKeepsIff | kernel/process.c:91-111 | a kill keeps the books in order iff the slot it hits is live, not the current one, and not under construction |
| Kills.KilledCurrentKeepsFrames | kernel/process.c:104-117 | after a kill of the current process and a scheduler call its frames are on the free list and its own |
| Kills.KilledChildKeepsFrames | kernel/process.c:94-108 | after a kill of a child under construction its frames are on the free list and the fork's |
| Kills.AbandonedCurrentClaimsNull | kernel/process.c:117-201 | a child that was dispatched too early and is then given up claims NULL after the next scheduler call |
| Kills.KillZeroFreesTwice | kernel/process.c:94-108 | after any kill, kill_process(0) can hit the same slot, free its frames again and make the list circular |
| SpinLock.RunIsExclusive | kernel/lock.c:17-38 | any number of cores, any interleaving of single accesses: at most one core is inside, if every release call of core 0 comes from its critical section or is turned away by the check |
| SpinLock.OwnerCheckExact | kernel/lock.c:12-15 | for every other core the owner check is exact |
| SpinLock.CheckSafeIff | kernel/lock.c:29-32 | a release call keeps the invariant iff the caller is inside or the check turns it away, and always for cores other than 0 |
| SpinLock.StrayReleaseBreaksExclusion | kernel/lock.c:29-38 | from every state of the invariant in which core 0 passes the check from outside, a run leads to two cores inside |
| SpinLock.StrayRunCanFail | kernel/lock.c:17-38 | so every run that violates the condition on core 0 can be continued to two cores inside |
| SpinLock.CoreZeroBreaksExclusion | kernel/lock.c:33 | without the condition on core 0 two cores get in, however many there are |
| SleepLock.RunIsSafe | kernel/lock.c:53-70 | intended sleep lock, any number of processes, any interleaving: at most one holder, and whoever waits waits for a held lock or for a releaser still on its way |
| SleepLock.NoSleeperForgotten | kernel/process.c:135-154 | a sleeper can go on, or another process holds the lock, or its wakeup is under way |
| SleepLock.WrittenStepSafeIff | kernel/process.c:135-143 | with sleep as written, a step keeps the invariant iff it does not leave sleep |
| SleepLock.UncontendedRunIsSafe | kernel/lock.c:53-70 | with sleep as written, every run in which nobody finds the lock taken is safe |
| SleepLock.ContendedRunCanFail | kernel/lock.c:55-57 | every other run can, from the moment somebody finds it taken, be continued to two holders |
| SleepLock.LeavingSleepBreaksExclusion | kernel/process.c:140-142 | and so can every state of the invariant in which somebody is about to leave sleep |
| SleepLock.ContentionBreaksExclusion | kernel/lock.c:55-57 | and every one in which somebody finds the lock taken |
| SleepLock.UnfinishedSleepBreaksExclusion | kernel/process.c:140-142 | in particular, from the start, for any number of processes from two on |
| Cpio.HexRoundTrip | kernel/rootfs.c:72-114 | printed hex fields read back as the number |
| Cpio.DigitsAre | kernel/rootfs.c:72-93 | 0 to 9 and upper-case A to F are the digits, and nothing else |
| Cpio.DigitsUnique | kernel/rootfs.c:94-114 | a number has one way of being written with n digits |
| Cpio.FormatConstants | kernel/rootfs.c:43-63 | the magic is 070701, the modes are 41ED and 81A4, the last name is TRAILER!!! |
| Cpio.NamesInPath | kernel/rootfs.c:274-304 | the base name is what follows the last slash, the parent's name what lies between the last two |
| Cpio.SplitJoins | kernel/rootfs.c:274-304 | splitting a path is undone by joining, and no component has a slash |
| Cpio.PrintIsPrinted | kernel/rootfs.c:6-33 | a printed archive is one the parser's theorem applies to |
| Cpio.EntryReads | kernel/rootfs.c:186-233 | every field of entry k is where the parser looks for it |
| RootFs.IntFromString | kernel/rootfs.c:94-114 | the value of the hex string, -1 iff it has a bad byte |
| RootFs.Matches | kernel/rootfs.c:142-160 | check_magic and check_end_archive: equality with the constant |
| RootFs.TypeOfMode | kernel/rootfs.c:43-44 | directory iff the low half of the mode is 0x41ED, regular iff 0x81A4 |
| RootFs.GetFileType | kernel/rootfs.c:116-136 | DIRECTORY iff the field reads 0x41ED, REGULAR iff 0x81A4 |
| RootFs.StrEqual | kernel/string.c:6-19 | true iff the first text is a prefix of the second, that is, iff the two agree up to the first NUL of the first |
| RootFs.ShiftBuffers | kernel/rootfs.c:283-290 | at a slash the name becomes the parent, both zero-padded |
| RootFs.ParseName | kernel/rootfs.c:274-304 | for every NUL-terminated path the 16-byte buffers end as the last component and the one before it, zero-padded, each whenever it has at most 15 bytes |
| Ramfs.Rootfs.constructor | kernel/rootfs.c:67-68 | both arrays start zeroed |
| Ramfs.Rootfs.SearchFile | kernel/rootfs.c:344-356 | the first file whose name is a prefix of the one sought; NULL iff there is none |
| Ramfs.Rootfs.LastSibling | kernel/rootfs.c:315-317 | the sibling walk ends, at the last element of the chain |
| Ramfs.Rootfs.Append | kernel/rootfs.c:310-319 | the file becomes the only child or the last sibling, nothing else changes |
| Ramfs.Rootfs.Attach | kernel/rootfs.c:308-320 | without a parent name nothing changes; else the parent link is set and the file is appended to its parent's chain |
| Newc.KidsInOrder | kernel/rootfs.c:306-320 | the children of a directory are listed in archive order |
| Newc.KidsComplete | kernel/rootfs.c:306-320 | all of them |
| Newc.ParentFound | kernel/rootfs.c:344-356 | with prefix-free base names the search stops at the parent |
| Newc.ChainsExtended | kernel/rootfs.c:306-320 | linking one more entry in keeps every directory's chain equal to its children so far |
| Newc.EntryAdded | kernel/rootfs.c:241-339 | one more entry parsed: all files, inodes and chains describe one more entry |
| InitRamfs.SetType | kernel/rootfs.c:241-272 | the type, the inode counter, which inode an empty file is given or whose numbers are entered, and no data or size of any inode |
| InitRamfs.SetName | kernel/rootfs.c:274-320 | name and place in the tree |
| InitRamfs.SetData | kernel/rootfs.c:327-333 | data goes to the current inode and size to the one the inode counter names, no other inode changes, and the file refers to the former; where the two agree, data and size are in one inode |
| InitRamfs.CountersNext | kernel/rootfs.c:265-331 | the inode counters do not wrap before 128 non-empty files |
| InitRamfs.TrailerOnlyAtEnd | kernel/rootfs.c:152-160 | the trailer test succeeds at the trailer and at no entry before it |
| InitRamfs.ParseEntry | kernel/rootfs.c:229-339 | on any image the pass rejects exactly the records with another mode, else moves on to the end of the record, and keeps links pointing forward; on a printed archive it deals with exactly one entry |
| InitRamfs.Init | kernel/rootfs.c:170-342 | on any image parsing ends, at the first trailer, or at the first record without the magic or with another mode; on a printed archive it stops at the trailer with files in order, names, types, parents, chains, data positions and sizes as printed |
| Listing.DirectoryListing | kernel/rootfs.c:306-320 | walking next_file from a directory's first child lists exactly its children, once each, in archive order, to strictly larger indices |
| Listing.ParentLink | kernel/rootfs.c:308 | a file's parent is d iff its path says so |
| Listing.LookupByName | kernel/rootfs.c:344-356 | searching a base name finds that entry |
| Listing.AbsentNameFound | kernel/rootfs.c:344-356 | a name nobody has is "found" in the first unused slot |
| Listing.ContentsOf | kernel/rootfs.c:328-333 | a non-empty file's inode gives exactly its size and bytes |
| Listing.InodesApart | kernel/rootfs.c:328-333 | no two non-empty files share an inode |
| Listing.Read | kernel/rootfs.c:358-371 | for a non-empty file, -1 iff the offset lies beyond its size |
| Listing.RoundTrip | kernel/rootfs.c:170-356 | printing any admissible archive and parsing it restores it: every name is found, every non-empty file has its bytes, every directory lists its children |

## Left out

- `copy_from_user` and `copy_to_user` (kernel/vmem.c:388-425): their size and pointer arithmetic would have to be rewritten first.
- The failure path of `clone_pagetable` (kernel/vmem.c:334-337): it frees raw entries that still name source frames; the model returns -1 and leaves the partial copy.
- The hardware's reading of permission and memory-attribute bits: `Vmem.GetPhysicalPage` says which word is stored and `Macros.EntryWords` that it is the macro's, the translations use presence and address only.
- Clone.ClonePagetable: the four nested loops are one loop per table, called recursively; so is Teardown.FreePagetable.
- Unmap.FreePage: a leaf that came from outside the pool is adopted by it; requires that no other position of the tree refers to that frame.
- Regions.MapRegion: requires that an aligned region does not wrap around and, unless success is certain, that the frames a rollback would free exist and occur nowhere else in the tree.
- Regions.UnmapRegion: requires that the bounds do not wrap around and that each mapped frame occurs once.
- Lifecycle.SysFork: the child's stack contents are copied whole; the missing return value is taken as 0; a caller that is itself marked FREE (it was killed and is still running) is excluded.
- System.Fork: like Lifecycle.SysFork, excludes a caller that is marked FREE.
- Teardown.FreePagetable: for a tree all of whose leaves are the allocator's; so is System.DropSpace.
- Kernel.Machine.Sleep: only the two stores to the process; the spinlock release of kernel/process.c:140 is part of `SleepLock`.
- System.UnmapPage: for a leaf of the pool; any other leaf makes the pool grow, as Unmap.FreePage states.
- System.Kill: for a slot that is live; Kills.KillKeepsIff says what happens otherwise.
- Scheduling.BoundedWaiting: counts scheduler calls; that the timer keeps calling it is not modelled.
- Runs.ServeAll: refuses the requests that would break ownership: kills that do not meet the condition of Kills.KillKeepsIff, returning a frame that was not taken, entering an address within the range of the pool by hand, unmapping a page entered by hand, teardown or copy of a page table that holds one (kfree would take those frames into the pool), and giving up a child that is the current process (Kills.AbandonedCurrentClaimsNull). `map_region` and `unmap_region` occur in runs as requests for single pages.
- Runs.Boot: stores the stack frame, which kernel/process.c:62-69 does not.
- SleepLock.RunIsSafe: the spinlock is taken and released in one step each, the lock's `pid` field (kernel/lock.c:59, which stores a pointer) is not modelled, nor is fairness.
- SpinLock.RunIsExclusive: interrupts and memory ordering beyond single atomic accesses are not modelled.
- InitRamfs.Init: more than 256 entries end as undefined (the C index wraps and overwrites file 0), bytes past the image read as zero, and a parent that is not a directory ends as undefined (the C code follows an inode as a file).
- Hard links of empty files (kernel/rootfs.c:255-262): `InitRamfs.SetType` says which inode the lookup finds; that it is the one with the data is not claimed, because the slots with the numbers are not those with the data.
- `ls` (kernel/rootfs.c:373-383): prints; it walks the siblings of the file found, not its children.
- `uservec` and `userret` (kernel/user_context.S:2-85): straight-line register moves.
- UART, timer, interrupt dispatch, exception printing, boot code, exception vectors: device access and hardware setup.
- `create_first_process` beyond its process slot and frames, `sys_execve`, kernel/sysfile.c and the user programs: stubs or unfinished.
