# NtmOS, verified

NtmOS is a small x86 kernel.  This project models the parts of it that keep state in memory and
proves what they keep.  Code that changes things step by step is modelled by classes, arrays and
loops and proved against specification functions; the main results are lemmas about those
functions, over every input, every run or every reachable state.

| part | files |
|---|---|
| page-run heap | `Heap.dfy`, `KHeap.dfy`, `HeapProofs.dfy` |
| timers, ready queue, event rings | `Links.dfy`, `KTimer.dfy`, `TimerProofs.dfy`, `Arming.dfy`, `Tasks.dfy`, `TaskProofs.dfy` |
| interrupt handlers | `KernelSpec.dfy`, `InterruptHandlers.dfy` |
| the kernel as a step system | `Machine.dfy`, `Ownership.dfy`, `KernelRuns.dfy`, `BlockSafety.dfy`, `FreeSteps.dfy`, `EventBlocks.dfy`, `Boot.dfy`, `SlotLife.dfy`, `UnreadKeys.dfy` |
| time and memory | `Shortage.dfy`, `Waiting.dfy`, `TimerDeadlines.dfy`, `TimerOrder.dfy`, `Starvation.dfy` |
| FAT16 reader | `Fat16.dfy`, `Fat16Proofs.dfy`, `FileSystem.dfy`, `FatLayout.dfy`, `FatBuffers.dfy` |
| layers and screen | `LayerStack.dfy`, `Compositor.dfy` |
| text console, formatter | `TextConsole.dfy`, `ConsoleInterrupts.dfy`, `KString.dfy` |
| boot: paging, descriptors, loader | `Paging.dfy`, `Segments.dfy`, `BootLoader.dfy` |
| shared types | `Option.dfy`, `Words.dfy`, `Sequences.dfy` |

## How the kernel core is put together

The heap, the timer list, the ready queue and the event rings are classes whose `View()` or
`Contents()` is a value; every method says what the new value is.  `InterruptHandlers.System` runs
the handlers over these objects, and its methods equal the functions of `KernelSpec`.

`Machine` is the kernel as a step system over the same values.  Handlers run through interrupt
gates (`kernel_inits.c:73-77`), so a handler is one step.  Task code runs with interrupts on, so
`k_free` is one step to read the header and one for every iteration of its loop, and
`k_set_timer_time` is three: it stores the timeout and then the flag before it turns interrupts off
and splices the timer into the list.  `Ledger` is
history that no code reads: who claims which pages, what each block is for, and which events a
task was sent and has taken.  `KernelRuns.Good` is the invariant of the whole kernel; `Boot` shows
that `initial_tasks` establishes it, hence that every reachable state has it.

The tail pointer of the ready queue and the `pp_next` of the timer list are pointers to pointers.
They are a `Links.Cell`: the list head, or the next field of a slot.

## Time and memory

Every event node takes a page, and the timer interrupt serves the timers of the list in their
order.  So what becomes of a due timer at a tick is decided before the tick, by how many timers
are ahead of it (`Shortage.Ahead`), how many pages are free (`Shortage.Spare`) and how many places
the ring has: it leaves the list exactly when the pages suffice for the timers ahead of it, and its
event arrives exactly when page and place suffice for itself too (`Shortage.ExpireServes`).  A due
timer that does not leave the list starves and waits for the next tick.  The laws about time hold
for all runs, with no assumption about memory, by counting the ticks that starve.

## Where the code does not meet its promise

Each is stated as the code behaves, with the exact condition under which it does what is meant.

- `k_set_timer_time` on a timer that is in the list ties the list into a loop (`KTimer.TimerControl.KSetTimerTime`).  So do two calls for one timer of which neither found it flagged, if the second runs between the two stores of the first (`KTimer.TimerControl.InterruptedCall`).  A caller is safe from that, whatever other callers and the interrupt do between the three steps of its call, if and only if the timer is not flagged TIMER_USING when the call begins and no other call for it is under way (`Arming.SafeIffIdle`).
- `k_malloc` of a size within 4 of 2^32 wraps around: the block is too small for its payload exactly then (`HeapProofs.PayloadFitsUnlessWrapped`).  Three of these sizes are granted as one page (`HeapProofs.WrappedSizeGetsOnePage`); for the fourth, 2^32 - 4, everything depends on an uninitialised variable (`KHeap.HeapArea.KMallocNoPages`): either `k_malloc` never ends, or it overwrites the first header of the heap and the pages of that block are lost (`HeapProofs.HeaderIsLost`).
- A refused event leaks its node; nothing else leaks.  A run leaks nothing if and only if no step sends more events than the ring of the running task has places and the heap has pages (`EventBlocks.LeaksNeedRefusals`).  Such a step can be reached from boot: 1024 keys that no task takes, and the next one (`UnreadKeys.UnreadKeysLeak`).
- A timer interrupt whose due events outnumber the free pages stops early, and exactly then (`TimerDeadlines.TickFailsIff`).  The timer it stops at is off the list and its event is lost (`TimerDeadlines.FailedTickLosesEvent`); those behind it, the switch timer perhaps among them, starve.  No event of a tick is lost if and only if pages and places suffice for all that are due (`TimerDeadlines.AllArriveIff`).  Such a tick can be reached from boot (`Starvation.TicksCanStarve`).
- Tasks are switched every 1000 ticks if and only if no tick starves the switch timer (`Waiting.OnTimeUnlessStarved`); a queued task waits longer by exactly the ticks that do (`Waiting.BoundedWaiting`).
- The idle task is READY but never queued, so nothing ever switches to it: `TaskProofs.Inv` keeps it out of the queue.
- `fat16_filename_cmp` accepts when one name is a prefix of the other (`Fat16Proofs.MatchesIsPrefix`, `MatchesIsEquality`, `ShortNameMatches`).
- The deleted-entry test compares a signed char with 0xe5 and never fires.  Some directory makes the scan return a deleted entry if and only if the name begins with 0xe5 and has at most eight characters (`Fat16Proofs.DeletedFoundIff`).
- The FAT16 data region is where the specification puts it exactly when the root directory fills whole sectors (`Fat16Proofs.DataStartIsStandard`).
- `read_file` does not know end-of-chain marks (`Fat16Proofs.LoadRunsOn`).  Of a chain that is too short it reads just what there is if and only if the chain ends in a free cluster (`Fat16Proofs.ShortChainLoadsIff`); at an end-of-chain mark it panics if and only if the end of the cluster of that number is not below the number of sectors (`EndMarkPanicsIff`, `EndMarkExample`).
- `read_file` reads nothing when two gigabytes or more are wanted (`HugeReadsAreEmpty`), and reads from cluster -1 when the file is missing (`MissingFileReadsSomething`).  That cluster begins three clusters before the data region, which may be before the partition (`MissingFileReadsFrom`, `MissingFileExample`).
- The check of `partition_read` is on a 32-bit sum: a read that passes it stays inside the partition if and only if the sum does not wrap around (`Fat16Proofs.PassedReadIsInside`).
- `get_next_cluster` frees none of its buffers: `read_file` finds memory for the links of exactly as many clusters as the heap has runs of free pages for buffers, none overlapping another (`FatBuffers.ClustersUntilFull`).
- `mov_layer_z` corrupts the stack when it shows a hidden layer below the top (`gui.c:129` stores a number where a field was meant) or raises a visible layer above the top.  The stack shows a list of layers afterwards if and only if the move is neither, or the slot above the top happened to hold the layer (`LayerStack.Screen.MovLayerZ`; an example is `LayerStack.ShowBelowTheTop`).
- The text console takes 0x0a as "start of row" and 0x0d as "next row"; the two are exchanged (`gui.c:373-379`).  A character is shown as it should be if and only if it is neither (`TranscriptSpec.PutIsConventional`), and a text at every moment if and only if it holds neither (`TranscriptSpec.TextIsConventional`).
- `tui_putchar` runs with interrupts on, so messages that the timer interrupt prints may find the cursor behind the screen, or move it between a test of the cursor and what follows from the test; then a message is stored behind the buffer.  A call is safe from that if and only if it puts a line feed code, or a character that is neither code at another than the last column (`ConsoleInterrupts.SafeFromMessagesIff`).
- The bootstrap maps more than `docs/design/design.adoc` says: identity up to 0x0FBFFFFF, and the next 4 MB onto the kernel's first 4 MB, because the kernel tables overwrite the last identity table (`PagingSpec.EveryAddress`).
- Descriptor limits above twenty bits lose their high bits (`DescriptorSpec.LimitSurvives`).
- The loader's name comparison does not see a difference in the last of the eleven characters (`BootLoader.CompareName`).  It takes the kernel file if and only if no entry before it differs in that one alone (`FloppySpec.KernelIsTakenIff`, `FloppySpec.WrongKernelExample`).

## Model

| member | source | states |
|---|---|---|
| HeapSpec.BlockAddresses | k_heap.c:31-33 | the header, payload and page index of a block computed from its pointer are those of its first page, and all words of the page lie in the heap |
| HeapProofs.BlocksLieBehindBitmap | k_heap.c:4-16 | every block lies behind the four megabytes of the bitmap and ends inside the heap; a request of 2^29 - 4 bytes or more that does not wrap is refused |
| KHeap.SkipToAfter | k_heap.c:21-29 | first fit from any index up to a marked page equals first fit from just behind that page: the jump i += j + 1 skips no run |
| KHeap.HeapArea.FindRun | k_heap.c:20-39 | the skipping double loop ends and returns what trying every index in turn returns |
| KHeap.HeapArea.TakeRun | k_heap.c:31-37 | header written, exactly the run's pages marked, pointer behind the header |
| KHeap.HeapArea.KMalloc | k_heap.c:13-42 | the whole new heap and the result, including both null returns and the 32-bit size sum |
| KHeap.HeapArea.KFree | k_heap.c:44-55 | exactly the pages named by the header are unmarked; nothing changes below the heap or with a page count above the bitmap |
| HeapProofs.FirstFitIsLeast | k_heap.c:21-39 | the index found is the least that fits; none is found only if none fits |
| HeapProofs.MallocIsFirstFit | k_heap.c:13-42 | null exactly when the size is rejected or no run fits, in which case the heap is unchanged; else the least fitting run |
| HeapProofs.PayloadFitsUnlessWrapped | k_heap.c:14-18 | header and payload fit in the pages if and only if size + 4 did not wrap; no page too many is taken |
| HeapProofs.WrappedSizeGetsOnePage | k_heap.c:14-18 | the sizes from 2^32 - 3 on get the very block that a request for one byte gets |
| KHeap.HeapArea.TryRun | k_heap.c:22-29 | the inner loop: whether the run is free, and where the search goes on; with no pages neither position nor flag changes |
| KHeap.HeapArea.KMallocNoPages | k_heap.c:13-41 | k_malloc of 2^32 - 4: with the uninitialised flag 1 it reserves no pages at page 0 and returns that pointer; otherwise it has changed nothing and not ended after any number of rounds |
| HeapProofs.HeaderIsLost | k_heap.c:30-37 | after such a reservation the block at page 0 has lost its header and k_free gives back none of its pages |
| HeapProofs.FreesByHeader | k_heap.c:44-55 | for any pointer: nothing below the first payload or with a page count above the bitmap, else as many pages as the header word counts, from the page of that word on |
| HeapProofs.MallocKeeps | k_heap.c:13-42 | an allocation at any moment, interrupted frees included, takes no page anybody claims and keeps the heap invariant |
| HeapProofs.LiveBlockHeader | k_heap.c:45-51 | for a live block both early returns of k_free are dead and its header names its own run |
| HeapProofs.BeginFreeKeeps | k_heap.c:45-52 | entering k_free passes the block's pages to the freeing task and keeps the invariant |
| HeapProofs.ClearKeeps | k_heap.c:52-54 | one iteration clears a page that only this task claims |
| HeapProofs.StoreKeeps | k_heap.c:31-33 | a store into a block's payload is inside the heap, damages no header and touches no other block |
| HeapProofs.StepsOfFree | k_heap.c:52-54 | clearing one page after another clears the whole range |
| FreeSteps.Entered | k_heap.c:44-52 | a step that enters k_free with a live block stands at the first of its pages, the kernel unchanged |
| FreeSteps.FreeIsItsSteps | k_heap.c:52-54 | the machine steps of the loop, one per page, leave the heap of an uninterrupted k_free and the task at its event loop |
| HeapProofs.FreeKeeps | k_heap.c:44-55 | a completed free gives back exactly that block |
| HeapProofs.MarkedPagesAreClaims | k_heap.c:34-36 | the number of marked pages is the sum of the sizes of the claimed runs |
| HeapProofs.EverythingFreed | k_heap.c:52-54 | with no block live and no free under way the bitmap is all zero |
| Links.SpliceInserts | k_timer.c:43-44 | the two splice stores insert into the chain at the place of the cell: null-terminated, no repeats |
| Links.SpliceTies | k_timer.c:43-44 | the same stores for a slot already further down the chain make a loop |
| Links.LoopsIsNoChain | k_timer.c:41-44 | a looped list is the chain of no sequence of slots |
| KTimer.TimerControl.KTimerAlloc | k_timer.c:6-14 | the first unused timer is flagged; null when there is none |
| TimerProofs.FirstUnusedIsLeast | k_timer.c:6-14 | the timer found is the first unused one, and none is found only if none is unused |
| KTimer.TimerControl.FindCell | k_timer.c:39-41 | the moving pointer-to-pointer stops at the cell before the first timer not due sooner |
| KTimer.TimerControl.StoreTimeout | k_timer.c:33 | the first store, with interrupts on: the deadline of this timer and nothing else |
| KTimer.TimerControl.StoreFlag | k_timer.c:34 | the second store, interrupts still on: the flag of this timer and nothing else |
| KTimer.TimerControl.LinkTimer | k_timer.c:36-46 | the part with interrupts off inserts a timer that the list does not hold, and ties a loop with one that it does |
| KTimer.TimerControl.KSetTimerTime | k_timer.c:28-47 | one call without interruption: null is ignored; a timer not in the list is inserted at its place; a timer in the list ties it into a loop |
| KTimer.TimerControl.InterruptedCall | k_timer.c:33-34 | a second call between the two stores of the first, for a timer that neither finds flagged, ends in a loop |
| Arming.RunKeeps | k_timer.c:28-47 | over any interleaving of the three steps of any calls and of timer interrupts, in which no call begins for a timer that is flagged TIMER_USING or in another call, the list stays sorted, without loop, and in step with the flags |
| Arming.CarelessKnots | k_timer.c:33-44 | a call for a timer that is flagged or in another call makes a loop when the calls under way are completed and nothing else happens |
| Arming.SafeIffIdle | k_timer.c:28-47 | whatever careful callers and the interrupt do after the call began, the list stays free of loops: if and only if the timer was not flagged when it began and no other call for it was under way |
| KTimer.TimerControl.PopFirst | interrupt_handlers.c:46-49 | the head timer is unlinked and flagged allocated, the chain stays a chain |
| TimerProofs.PlaceIsLeast | k_timer.c:41 | everything before the place is due sooner, nothing from it on is |
| TimerProofs.NewestFirst | k_timer.c:41-44 | sooner timers stay before the new one, timers due at the same tick come after it |
| TimerProofs.StoreTimeoutKeeps | k_timer.c:33 | storing the deadline of a timer that is not flagged keeps the list sorted and in step with the flags |
| TimerProofs.StoreFlagKeeps | k_timer.c:34 | so does storing its flag, which makes it pending |
| TimerProofs.LinkKeeps | k_timer.c:36-46 | linking a pending timer keeps the list sorted, free of repeats and equal to the TIMER_USING timers |
| TimerProofs.PopKeeps | interrupt_handlers.c:46-49 | so does taking the first timer off |
| ReadyQueue.Scheduler.Append | tasks.c:149-150 | storing through the tail pointer appends to the chain and the tail addresses the new last cell |
| ReadyQueue.Scheduler.PutTaskToReady | tasks.c:293-301 | the task is READY and last in the queue; null is ignored |
| ReadyQueue.Scheduler.StartTask | tasks.c:273-291 | an initialised task with an address is queued behind all others and READY; for null, a missing address or another state nothing changes |
| ReadyQueue.Scheduler.TakeFirst | tasks.c:139-143 | the head is unlinked and the tail goes back to the head cell when the queue empties |
| ReadyQueue.Scheduler.SwitchTask | tasks.c:121-168 | the whole scheduler state after a switch, shape of the list included; nothing when no task is ready |
| ReadyQueue.Scheduler.TaskAlloc | tasks.c:170-190 | the first unused slot becomes allocated; null when there is none |
| EventRing.EventQueue.Enqueue | tasks.c:392-409 | refused exactly for null or at 1024 pointers, otherwise appended to the FIFO |
| EventRing.EventQueue.Dequeue | tasks.c:411-427 | the oldest pointer leaves the FIFO; null exactly when it is empty |
| TaskProofs.StartTaskKeeps | tasks.c:273-301 | starting a task keeps the scheduler invariant, the queue before it and the running task |
| TaskProofs.StartedIff | tasks.c:273-301 | a task comes into the queue if and only if it is initialised and has an address; then it is last and READY, else the scheduler is unchanged |
| TaskProofs.FirstUnusedIsLeast | tasks.c:170-190 | the slot found is the first unused one, and none is found only if none is unused |
| TaskProofs.SwitchFromIdle | tasks.c:146-151 | the idle task does not queue up when another takes over from it |
| TaskProofs.SwitchKeeps | tasks.c:121-168 | a switch keeps the invariant and rotates running task plus queue left by one |
| TaskProofs.SwitchesRotate | tasks.c:121-168 | n switches rotate by n |
| TaskProofs.RoundRobin | tasks.c:121-168 | as many switches as there are runnable tasks restore the whole scheduler state |
| InterruptHandlers.MakeNode | interrupt_handlers.c:58-65 | allocation and the two stores of an event node, null included |
| KernelSpec.NodeLayout | interrupt_handlers.c:58-65 | a new node holds the kind in its first word and the data in its second |
| KernelSpec.KindsDiffer | kernel_inits.h:30-34 | events of keyboard, mouse and timer differ |
| InterruptHandlers.System.Int20hHandler | interrupt_handlers.c:33-74 | the timer interrupt does to the kernel what KernelSpec.Tick says |
| InterruptHandlers.System.Int21hHandler | interrupt_handlers.c:77-94 | the keyboard interrupt posts its event to the running task |
| InterruptHandlers.System.Int2chHandler | interrupt_handlers.c:102-120 | so does the mouse interrupt |
| InterruptHandlers.System.ExpireTimers | interrupt_handlers.c:45-69 | the expiry loop, its break on a failed allocation included, and whether the switch timer was met |
| InterruptHandlers.System.SwitchTask | tasks.c:121-168 | the rotation and the re-arming of the switch timer for 1000 ticks |
| InterruptHandlers.System.DequeueEvent | tasks.c:92-93 | a task takes the oldest node of its own ring |
| InterruptHandlers.System.NewTask | tasks.c:211-262 | a new task has a kernel stack, an empty ring and state INIT |
| InterruptHandlers.System.InitialTasks | tasks.c:303-390 | start-up builds exactly the kernel of the boot state |
| InterruptHandlers.System.StartUp | tasks.c:303-390 | from zeroed tables, made anew, to the kernel of the boot state |
| Ownership.AllocatedNode | interrupt_handlers.c:58-65 | a new node overlaps no live block, leaves all other words alone and holds the event |
| Ownership.PostKeeps | interrupt_handlers.c:85-93 | posting keeps claims, rings, held nodes and the event log in agreement |
| Ownership.ExpireKeeps | interrupt_handlers.c:45-69 | so does the expiry loop, whatever number of events it posts |
| Ownership.TakesOldest | tasks.c:93 | a task takes exactly the oldest event it was sent and has not taken |
| Ownership.FreeReachesLoop | k_heap.c:45-52 | freeing a live block always reaches the clearing loop with the block's own pages |
| Ownership.BeginFreeOwns | tasks.c:116 | the node a task frees is live, its own, and queued nowhere |
| Ownership.ClearStepKeeps | k_heap.c:52-54 | one iteration of an interrupted k_free keeps the whole agreement |
| KernelRuns.ExpireTakesPrefix | interrupt_handlers.c:45-49 | the loop takes a prefix of the list, all due, and reports the switch timer exactly when it was in it |
| KernelRuns.TickKeeps | interrupt_handlers.c:33-74 | a timer interrupt keeps the invariant of the kernel; the switch timer is in the list again after it, even if an allocation failed |
| KernelRuns.StepKeeps | tasks.c:81-119 | every step of any task or handler keeps the invariant, where a call of k_set_timer_time, three steps, begins for no timer that is flagged or being armed |
| KernelRuns.RunKeeps | tasks.c:81-119 | every run of such steps keeps it |
| BlockSafety.SurvivesStep | k_heap.c:44-55 | no step, an iteration of somebody's k_free included, touches a block it does not free or write |
| BlockSafety.BlockIsSafe | tasks.c:101-116 | over any run a block that nobody frees or writes keeps all its pages marked and all its words |
| BlockSafety.BitmapIsExact | k_heap.c:13-55 | at every moment live blocks and half-freed rests are disjoint, the bitmap is exactly their pages and their number the sum of the sizes |
| EventBlocks.StepLeaks | interrupt_handlers.c:58-67 | a step forgets no leaked block, and adds one if and only if it sends more events than the ring has places and the heap has pages |
| EventBlocks.LeaksNeedRefusals | interrupt_handlers.c:67 | over any run leaked blocks stay leaked, and none is added if and only if no step does that |
| UnreadKeys.UnreadKeysLeak | interrupt_handlers.c:85-93 | a state reachable from boot where nothing has leaked yet and the next key leaks its node |
| EventBlocks.EventsAreConserved | tasks.c:392-427 | at every moment: events sent = events taken, then the events in the queued nodes, which are live and nobody else's |
| EventBlocks.EventBlocksAreQueuedOrHeld | tasks.c:88-118 | without refusals every event block is queued in a ring or in the hands of a task |
| Shortage.OnePage | k_heap.c:20-39 | allocation of one page fails if and only if no page before the last is free, and otherwise takes one of them |
| Shortage.PostTakesPage | interrupt_handlers.c:58-67 | an event finds no memory exactly when no page is spare, is refused exactly when one is and the ring is full, and costs one page |
| Shortage.PostReaches | tasks.c:392-408 | an event reaches the ring of the running task, behind all that wait there, exactly when a page is spare and the ring has a place; no other ring changes |
| EventBlocks.InterruptReaches | interrupt_handlers.c:81-117 | with a page and a place a key reaches the running task as kind 1 with its character, a mouse interrupt as kind 2 with its byte |
| Shortage.ExpireServes | interrupt_handlers.c:45-69 | a due timer leaves the list if and only if there are pages for the timers ahead of it, and its event reaches the ring if and only if there are a page and a place for itself too |
| Shortage.ExpireFails | interrupt_handlers.c:45-69 | the loop breaks off if and only if the due events outnumber the spare pages, and a ring refuses a node if and only if it has too few places for the events that get a page |
| Waiting.TickSwitches | interrupt_handlers.c:71-73 | a tick switches exactly when the switch timer is due and not starved, with the next deadline 1000 ticks later; otherwise scheduler and deadline stay |
| Waiting.StillWaiting | tasks.c:121-168 | until its tick a queued task stays queued and its wait counts down with every tick that does not starve the switch timer |
| Waiting.BoundedWaiting | tasks.c:121-168 | over any run the task at place k becomes current on exactly the tick its place names, at most (k + 1) * 1000, later by exactly the ticks that starved the switch timer |
| SlotLife.StartedTaskRuns | tasks.c:273-301 | over any run a task that was initialised and started with an address becomes current on the tick its place behind all queued tasks names, within (tasks queued + 1) * 1000 ticks, later by the ticks that starve the switch timer |
| SlotLife.TaskIsMadeOnce | tasks.c:170-262 | a new task gets an unused slot, is INIT with an empty ring and not queued, and over any run no other task gets its slot |
| SlotLife.TimerIsHandedOutOnce | k_timer.c:6-14 | a timer that was allocated is not handed out again, however often it is armed and fires |
| Waiting.OnTimeUnlessStarved | tasks.c:159 | the switch timer is on time throughout a run if and only if no tick starves it |
| Waiting.SwitchEveryPeriod | tasks.c:159 | then the switch deadlines stay on one grid of 1000 ticks |
| TimerDeadlines.TickDelivers | interrupt_handlers.c:58-67 | after a tick the nodes queued for the running task hold what they held and the delivered events behind |
| TimerDeadlines.TimerAtTick | interrupt_handlers.c:45-69 | a timer leaves the list at a tick exactly when due and not starved, and the ring gains its event, once, exactly when it is due and fits |
| TimerDeadlines.AllArriveIff | interrupt_handlers.c:58-67 | no event of a tick is lost if and only if the due events find as many pages and places |
| TimerDeadlines.TickFailsIff | interrupt_handlers.c:60-63 | the expiry loop breaks off if and only if the due events outnumber the spare pages |
| TimerDeadlines.FailedTickLosesEvent | interrupt_handlers.c:47-63 | then a due timer is off the list and no longer flagged, and the ring gained nothing of it |
| TimerDeadlines.NotBeforeItsTick | interrupt_handlers.c:39-45 | before its tick a timer stays in the list, its remaining time counting down |
| TimerDeadlines.FiresOnItsTick | k_timer.c:33 | over any run a timer in the list leaves it on exactly the tick its deadline names, later by exactly the ticks that starved it, and the ring of the running task then gains its event once if it fits and not at all otherwise |
| TimerDeadlines.DeadlineStays | k_timer.c:33-37 | from the first store of a call until its splice, whatever interrupts it leaves the deadline alone |
| TimerDeadlines.ArmedTimerFires | k_timer.c:28-47 | a timer armed with delay d, interrupted anywhere between the first store and the splice, does so on the tick d after arming began, or on the first tick after it was linked if that is later, plus the ticks that starve it |
| TimerDeadlines.OffUntilArmed | interrupt_handlers.c:46-49 | a timer out of the list stays out, and no tick adds its event to a ring, until it is armed again |
| TimerOrder.LinkedBefore | k_timer.c:41-44 | a timer is linked before the timers not due sooner |
| TimerOrder.DeliversInOrder | interrupt_handlers.c:45-67 | in one tick events reach the ring in the order of the list |
| TimerOrder.NewestFiresFirst | interrupt_handlers.c:45-49 | over any run the timer in front fires first: on its tick the other is still in the list, and its event, if it arrives then, arrives behind |
| Starvation.TicksCanStarve | interrupt_handlers.c:58-63 | a state reachable from boot whose next tick neither switches tasks, though the switch timer is due, nor delivers the event of the timer that it takes off the list |
| Boot.BootIsGood | tasks.c:303-318 | the boot state has the invariant and the switch timer is on time |
| Boot.BootTables | tasks.c:303-390 | what initial_tasks leaves in the tables: task 1 runs, task 0 is idle and not queued, timer 0 alone is armed, for tick 1000 |
| Boot.EveryReachableStateIsGood | tasks.c:303-318 | so has every state reachable from it |
| Boot.SwitchesOnTheThousands | tasks.c:315 | from boot on, as long as no tick has starved the switch timer, a tick switches tasks exactly when it completes a thousand and does not starve it |
| Fat16Proofs.DataStartIsStandard | fs.c:153-159 | the data region starts where the Microsoft FAT specification 1.03 puts it if and only if the root directory fills whole sectors |
| FatLayout.BootSectorRoundTrip | fs.h:11-34 | the fields laid out one behind the other as in a boot sector read back as they are |
| FatLayout.RegionsTile | fs.c:152-160 | the regions lie one behind the other and the last ends with the partition |
| Fat16Proofs.ToUpperIsAlphabetic | fs.c:281 | small letters become the capital letters of the same places and no other byte changes |
| Fat16Proofs.MatchesIsPrefix | fs.c:269-287 | a name is accepted if and only if it has at most eight characters and one name is a prefix of the other, case ignored |
| Fat16Proofs.MatchesIsEquality | fs.c:269-287 | the names are equal if and only if they are accepted and equally long |
| Fat16Proofs.ShortNameMatches | fs.c:280-286 | a concrete pair of different names that is accepted |
| Fat16Proofs.FindEntryIsFirst | fs.c:211-222 | the scan finds the lowest match before any end mark, and one whenever there is one |
| FatLayout.EntryOfDirectory | fs.c:211-222 | entry i of a directory laid out entry behind entry is the i-th |
| FatLayout.LookupReadsEntry | fs.c:188-267 | the lookups return the size and the start cluster that the entry found was laid out with |
| Fat16Proofs.DeletedIsReturned | fs.c:215-221 | a directory whose only entry is deleted and is returned all the same |
| Fat16Proofs.DeletedFoundIff | fs.c:215-221 | some directory makes the scan return a deleted entry if and only if the name begins with 0xe5 and has at most eight characters |
| Fat16Proofs.LoadIsPrefix | fs.c:303-319 | following a chain that is long enough loads exactly the first bytes of its clusters |
| Fat16Proofs.LoadStopsAtFree | fs.c:316-318 | a chain that ends early in a free cluster gives all it has |
| Fat16Proofs.LoadRunsOn | fs.c:316-318 | a chain that ends early in anything else is followed further |
| Fat16Proofs.ShortChainLoadsIff | fs.c:303-319 | of a chain that is too short exactly its bytes are loaded, and the reader returns, if and only if it ends in a free cluster |
| Fat16Proofs.EndMarkPanicsIff | fs.c:303-319 | if it ends in an end-of-chain mark the reader stores its bytes and panics if and only if the end of the cluster of that number is not below the number of sectors |
| Fat16Proofs.EndMarkExample | fs.c:303-319 | a volume and a file of one cluster on which that happens |
| Fat16Proofs.ReadFileUsesOneEntry | fs.c:289-293 | size and start cluster come from one and the same directory entry |
| Fat16Proofs.ReadFileIsContent | fs.c:289-323 | an existing file gives exactly the first min(file size, buffer size) bytes of its clusters |
| FatLayout.NextIsEntry | fs.c:325-336 | from a FAT laid out as sixteen bits for every cluster, low byte first, the next cluster is the number laid out for the cluster |
| FatLayout.ReadsFileOnDrive | fs.c:289-323 | a file as it stands on the drive, its entry in the root directory and its chain in the FAT: read_file gives exactly the first min(file size, buffer size) bytes of the sectors of its clusters |
| Fat16Proofs.HugeReadsAreEmpty | fs.c:291-303 | two gigabytes or more of a file that large read as nothing |
| Fat16Proofs.MissingFileReadsSomething | fs.c:290-307 | for a missing file the result is empty if and only if nothing or two gigabytes and more were asked for, or the end of cluster -1, in 32-bit arithmetic, is not below the number of sectors |
| Fat16Proofs.MissingFileReadsFrom | fs.c:133-141 | otherwise its first byte is the one three clusters before the data region, on the drive, which may be before the partition |
| Fat16Proofs.PassedReadIsInside | fs.c:137-140 | a read that passes the check ends inside the partition if and only if its 32-bit end does not wrap |
| Fat16Proofs.MissingFileExample | fs.c:289-323 | two volumes without files: on one, reading any file gives the first byte of the boot sector, on the other a byte in front of the partition |
| FileSystem.Fat16FilenameCmp | fs.c:269-287 | the comparison loop decides the match |
| FileSystem.ScanDirectory | fs.c:211-222 | the directory loop returns the entry that the scan function finds |
| FileSystem.RootFs.BuildFromFat16 | fs.c:147-160 | the fields are the regions of the boot sector, in 32-bit arithmetic |
| FileSystem.RootFs.PartitionRead | fs.c:133-141 | panic exactly when the 32-bit end is not below the number of sectors; otherwise the buffer gets those sectors of the drive and nothing beyond |
| FatLayout.SectorOnDrive | fs.c:133-141 | byte i of sector k of a read is the drive's byte that far behind the start of the partition and the sector |
| FileSystem.RootFs.GetFileSize | fs.c:188-226 | the size from the entry found, or -1 |
| FileSystem.RootFs.GetFileStartCluster | fs.c:228-267 | the start cluster from the entry found, or -1 |
| FileSystem.RootFs.GetNextCluster | fs.c:325-336 | the entry of the first FAT, which is the number laid out there for the cluster (`FatLayout.NextIsEntry`) |
| FileSystem.RootFs.ReadFile | fs.c:289-323 | the buffer is the loaded bytes and then what it was, the result their number; it ends for every FAT, cyclic chains included |
| FatBuffers.GrantedIff | fs.c:331 | in any heap, get_next_cluster gets its buffer if and only if fewer calls went before than the greedy count of free runs of its size |
| FatBuffers.ClustersUntilFull | fs.c:325-336 | it gets one if and only if there is a choice of more runs of free pages than calls before it, none of them overlapping another |
| FatBuffers.RoomBehind | k_heap.c:20-39 | in a heap filled up to some page that count is a quotient |
| LayerSpec.OthersKeepOrder | gui.c:89-137 | a move leaves all other layers in their order |
| LayerSpec.ServedAtLevel | gui.c:89-137 | a visible layer asked for a level of the stack gets that level; a negative level hides; a hidden layer asked above the top ends on top; the others keep their order |
| LayerSpec.LevelsAfterMove | gui.c:102-124 | every layer's level after a move |
| LayerSpec.RunsKeepOrder | gui.c:89-137 | over any run of moves that work the layers never moved keep their order and none appears or disappears |
| LayerStack.Screen.ShiftUp | gui.c:102-105 | the lowering loop moves the layers between up by one, levels included |
| LayerStack.Screen.ShiftDown | gui.c:120-123 | the raising and hiding loops move them down by one |
| LayerStack.Screen.MovLayerZ | gui.c:89-137 | for every request: a visible layer asked for a level of the stack stands at that level, a negative level hides it, a hidden layer asked above the top ends on top, others in order; otherwise the stack shows the moved list, or no list of layers at all; it shows one if and only if the move goes down, stays, goes up to at most the top or shows on top, or the slot above the top held the layer already |
| LayerStack.ShowBelowTheTop | gui.c:127-134 | a concrete request after which the stack shows no list of layers |
| LayerStack.Screen.Serve | gui.c:89-137 | a move that works leaves the stack exact (each slot its layer, each layer its level) and nothing else changed |
| LayerStack.Screen.AllocLayer | gui.c:75-87 | the first unallocated layer is taken, hidden; the stack is untouched |
| LayerStack.Screen.FreeLayer | gui.c:167-174 | the layer leaves the stack and is unallocated |
| CompositeSpec.CompositeIsHighest | gui.c:142-158 | a cell shows the colour of the highest layer that paints it |
| CompositeSpec.CompositeUntouched | gui.c:142-158 | and keeps its own when no layer does |
| CompositeSpec.RowsAreApart | gui.c:149-154 | row times width plus column tells rows apart inside the screen |
| Compositor.FrameBuffer.DrawLayer | gui.c:148-157 | one layer paints exactly its opaque cells, with the bytes that `DrawnByte` says |
| Compositor.FrameBuffer.DrawnByte | gui.c:148-157 | the cell so many lines down and columns right of the corner gets the byte of the layer there, unless it is the invisible colour |
| Compositor.FrameBuffer.DrawnNowhereElse | gui.c:148-157 | a cell that the layer does not cover keeps its colour |
| Compositor.FrameBuffer.RefreshScreen | gui.c:139-159 | the three loops give every cell its composite colour |
| Compositor.FrameBuffer.HighestByteShows | gui.c:139-159 | where a byte of a layer is visible and every layer above is see-through, the refreshed cell is that byte |
| Compositor.FrameBuffer.MovLayerZ | gui.c:89-137 | a move that works, refresh included, gives every cell the composite of the moved list |
| TranscriptSpec.PlainTextLands | gui.c:380-388 | plain text lands in reading order from the cursor on, wrapping from row to row, and changes no other cell, however often the screen scrolls |
| TranscriptSpec.PrintedLine | gui.c:368-395 | k_printf of plain text stores exactly the text and leaves the cursor at the start of a new row |
| TranscriptSpec.RunsKeepHistory | gui.c:397-419 | over any run of console calls what has scrolled off stays as it was |
| TranscriptSpec.PutIsConventional | gui.c:373-388 | a character is shown as the two codes are meant, on any screen, if and only if it is neither of them |
| TranscriptSpec.TextIsConventional | gui.c:372-389 | a text is shown so after every character if and only if it holds neither code |
| TranscriptSpec.ShowsExchanged | gui.c:372-389 | every text is shown as the text with the two codes exchanged should be |
| TranscriptSpec.LineFeedExample | gui.c:373-375 | a line feed and a letter that overwrite what they should leave |
| TranscriptSpec.PairIsConventional | gui.c:373-379 | both codes together come out right in either order |
| TextConsole.Console.ScrollUp | gui.c:397-419 | rows move up, the last ones are cleared, for any number of lines |
| TextConsole.Console.KPrintf | gui.c:368-395 | the buffer is the last 25 rows of the transcript after printing, the cursor inside |
| TextConsole.Console.TuiPutchar | gui.c:450-467 | the same for one character, without interruption |
| TextConsole.Console.IsShown | gui.c:459-460 | the two bytes of the screen at the place of the cursor are the character and 0x0B, one row higher if the screen has scrolled |
| ConsoleInterrupts.AloneIsPutChar | gui.c:450-467 | the steps of a call that nothing interrupts do to the cursor what the statements say and store to the cell of the cursor |
| ConsoleInterrupts.CursorAfterPut | gui.c:368-467 | without interruption k_printf and tui_putchar move the cursor as the transcript does |
| ConsoleInterrupts.MessageInsideIff | gui.c:380-388 | a message that interrupts tui_putchar stays in the buffer if and only if the cursor is at a cell of it, and leaves the cursor on the screen |
| ConsoleInterrupts.SafeFromMessagesIff | gui.c:450-467 | no store of a call of tui_putchar, nor of any messages that interrupt it between any two accesses to memory, is outside the buffer: if and only if the character is a line feed code, or neither code and the column not the last |
| TextConsole.Console.TuiMoveCursor | gui.c:421-424 | the cursor moves and stays inside the screen |
| TranscriptSpec.MovesToPlace | gui.c:421-424 | the first argument is the column and the second the row, each at most the last |
| StringProofs.ReverseAt | kstring.c:126-135 | element k of the reversal is element n - 1 - k |
| StringProofs.ReverseTwice | kstring.c:126-135 | reversal is an involution |
| StringProofs.DigitsRoundTrip | kstring.c:151-155 | the digits of n, in any base from 2 to 16, read back as n |
| StringProofs.DigitsAreMinimal | kstring.c:151-155 | as many digits as the size of n calls for, no more and no fewer |
| StringProofs.NoLeadingZero | kstring.c:151-155 | the first digit is not zero |
| StringProofs.NumbersRoundTrip | kstring.c:139-195 | the texts of numbers, negative ones too, read back as the numbers |
| StringProofs.NumberTextFits | kstring.c:211 | the text of any word fits the 256 characters kept for it |
| StringProofs.NumeralIsUnique | kstring.c:139-162 | a number has one text of digits of the base without a zero in front |
| StringProofs.RadixIsBase | kstring.c:143-155 | a number text is the numeral in the base asked for, 16 for larger ones |
| StringProofs.RenderHex | kstring.c:233-239 | %x stands for the numeral of its word in base 16 and takes one argument |
| StringProofs.RenderDecimal | kstring.c:226-232 | %d stands for the numeral of its word as a signed number in base 10 |
| StringProofs.RenderString | kstring.c:220-225 | %s stands for the characters before the terminator |
| StringProofs.RenderPercent | kstring.c:217-219 | two percent signs are one |
| StringProofs.RenderUnknown | kstring.c:216-242 | another letter stands for nothing and takes no argument |
| StringProofs.RenderPlain | kstring.c:244-246 | a character that is no percent sign stands for itself |
| StringProofs.RenderNothing | kstring.c:240-241 | a percent sign at the end stands for nothing |
| StringProofs.RenderHasNoNul | kstring.c:197-251 | a rendered text has no terminator inside |
| KString.KMemrev | kstring.c:126-135 | the buffer is reversed in place, nothing beyond it changes |
| KString.KUtoa | kstring.c:139-162 | the buffer holds the text of the number and its terminator, the rest as it was |
| KString.KItoa | kstring.c:164-195 | the same with a sign |
| KString.KStrlen | kstring.c:84-88 | the length of the string |
| KString.KStrcat | kstring.c:47-53 | the string is appended with its terminator, the rest as it was |
| KString.PutLetter | kstring.c:216-242 | what each letter after a percent sign appends |
| KString.KSprintf | kstring.c:197-251 | the buffer holds exactly the rendered text, terminated, the rest as it was; the result is its length |
| PagingSpec.WalkThrough | kernel_bootstrap.nas:56-103 | a directory entry and a table entry make the walk to their page, rights combined |
| PagingSpec.FlagBits | kernel_bootstrap.nas:56-103 | bits 0, 1 and 2 of an entry say present, writable and user |
| PagingSpec.IdentityWalk | kernel_bootstrap.nas:79-91 | addresses below 0x0FC00000 map to themselves, user and writable |
| PagingSpec.SharedTableWalk | kernel_bootstrap.nas:93-103 | the next 4 MB go through the overwritten table to the kernel's first 4 MB |
| PagingSpec.KernelWalk | kernel_bootstrap.nas:68-77 | 0x80000000 + x maps to 0x08000000 + x for x below 128 MB, supervisor only |
| PagingSpec.UnmappedWalk | kernel_bootstrap.nas:49-55 | every other address faults |
| PagingSpec.EveryAddress | kernel_bootstrap.nas:19-23 | the built tables translate every 32-bit address as the mapping says |
| PagingSpec.SharedMemory | kernel_bootstrap.nas:56-103 | exactly which pairs of addresses lead to the same byte |
| Bootstrap.Fill | kernel_bootstrap.nas:61-66 | a fill loop stores consecutive page entries and nothing else |
| Bootstrap.InitPaging | kernel_bootstrap.nas:49-103 | after the loops every address translates as the mapping says |
| DescriptorSpec.DecodePacked | segments.h:8-36 | the packed fields of a descriptor read back as themselves |
| DescriptorSpec.PlacedDecodes | segments.c:39-43 | any 32-bit base comes back, and of the limit the low twenty bits |
| DescriptorSpec.LimitSurvives | segments.c:42-43 | the limit comes back if and only if it has no more than twenty bits |
| DescriptorSpec.TssDecodes | segments.c:33-49 | an installed task state is a present 32-bit available TSS with this base |
| DescriptorSpec.LdtDecodes | segments.c:50-69 | an installed local table is a present LDT with this base |
| DescriptorSpec.UserDecodes | segments.c:82-109 | an installed segment is present ring-3 code or data with this base |
| DescriptorSpec.AccessBits | segments.h:14-32 | the access byte and the flags of any entry, bit field by bit field |
| DescriptorSpec.AccessByte | segments.c:33-109 | the access byte is 0x89 for a task state, 0xE2 for a local table, 0xFB for code and 0xF3 for data, all 32-bit with the limit in bytes |
| DescriptorSpec.UserSegmentIsUmem | mm.c:64-76 | the segments of process i cover exactly its memory |
| DescriptorSpec.UserMemoryTiles | mm.c:64-76 | the memories of the 64 processes are disjoint and tile 64 MB to 128 MB |
| Segments.InstallTssToGdt | segments.c:33-49 | only this slot changes, to this descriptor; slots 0 and 8192 on panic |
| Segments.InstallLdtToGdt | segments.c:50-69 | the same for a local table |
| Segments.InstallSegToLdt | segments.c:82-109 | the same for a segment in a local table |
| Segments.InitProcessManagement | tasks.c:52-70 | all 64 processes have their number, state, four descriptors and selector; slots outside 16 to 143 are untouched |
| FloppySpec.EverySectorHasItsPlace | ntmio.sys.nas:312-326 | a sector's cylinder, head and number are in range if and only if it is below 2880, and give it back |
| FloppySpec.PlacesAreSectors | ntmio.sys.nas:312-326 | every place on the floppy is that of its sector |
| FloppySpec.NextPlace | ntmio.sys.nas:312-326 | sectors follow one another along a track, then on the other side, then on the next cylinder |
| FatLayout.FloppyIsRead | ntmio.sys.nas:33-58 | of a floppy laid out as boot sector, two FATs, root directory and data the loader takes the first FAT, the root directory and cluster c as number c - 2 of the data |
| FatLayout.FloppyEntry | ntmio.sys.nas:61-88 | name and start cluster are those that the entry was laid out with |
| FloppySpec.PackedEntry | ntmio.sys.nas:94-104 | the shift and mask decode inverts FAT12 packing for every entry |
| FloppySpec.ChainsAgree | ntmio.sys.nas:90-117 | a cluster has one chain |
| FloppySpec.EndsInMark | ntmio.sys.nas:104-106 | a chain ends in a number from 0xFF0 on and in no smaller one |
| FloppySpec.ChainIsAcyclic | ntmio.sys.nas:90-117 | a chain that ends visits no cluster twice |
| BootLoader.ReadSector | ntmio.sys.nas:297-339 | the 512 bytes at ES:BX become the sector, nothing else changes |
| BootLoader.ReadRun | ntmio.sys.nas:34-45 | consecutive sectors go to consecutive memory |
| BootLoader.CompareName | ntmio.sys.nas:66-71 | equal if and only if the first ten characters are |
| FloppySpec.KernelIsTakenIff | ntmio.sys.nas:61-78 | the first entry with the very name of the kernel is the one taken if and only if none before it differs in the last character alone |
| FloppySpec.WrongKernelExample | ntmio.sys.nas:66-71 | KERNEL.SYM in front of KERNEL.SYS is taken in its place |
| BootLoader.FindKernel | ntmio.sys.nas:61-78 | the first matching entry of the 224, or none |
| BootLoader.NextEntry | ntmio.sys.nas:94-104 | the register arithmetic is the FAT12 entry |
| BootLoader.NextAddress | ntmio.sys.nas:108-116 | ES:BX moves on by 512 across every wrap of BX |
| BootLoader.LoadChain | ntmio.sys.nas:90-117 | cluster k of the chain stands at 0xA000 + 512 * k, memory elsewhere unchanged |
| BootLoader.Load | ntmio.sys.nas:33-117 | the clusters of the first matching entry stand in memory from 0xA000 on, found if and only if some entry matches |

## Left out

- k_malloc of size 0xFFFFFFFC, whose block would have no pages, is excluded by `HeapSpec.ValidSize` from all other members; what it does is `KHeap.HeapArea.KMallocNoPages`.
- k_malloc by task code with interrupts on: allocations of tasks are one step, as if made with interrupts off; only k_free is split.
- HeapProofs.MallocKeeps: the excluded size needs no page; what it does is `KHeap.HeapArea.KMallocNoPages`.
- KHeap.HeapArea.KMalloc: the excluded size needs no page; what it does is `KHeap.HeapArea.KMallocNoPages`.
- InterruptHandlers.System.NewTask: the excluded size needs no page; what it does is `KHeap.HeapArea.KMallocNoPages`.
- KHeap.HeapArea.KFree: for pointers whose header and pages lie in the heap, as those from k_malloc do; any other pointer reads and clears memory that is not modelled.
- KHeap.HeapArea: heap and bitmap are zero at start-up; no line of the source clears them.
- ReadyQueue.Scheduler.PutTaskToReady: for a task that is not queued yet, as start_task sees to; queueing a task twice would tie the queue into a loop.
- ReadyQueue.Scheduler.TaskAlloc: does not model the process number that the slot is given.
- Page faults of the heap: the heap is as large as its constants say, although the page tables map only its first part.
- 32-bit wrap-around of ticks, deadlines and process numbers.
- Segment switch, port I/O and messages inside the handlers (`_switch_task`, `_io_out8`, `k_printf`): no effect on the modelled state.
- task_free, kern_fork, k_timer_free of armed timers, and timer callbacks other than switch_task.
- Machine: runs arm no timer that is flagged TIMER_USING or being armed, which is what `Arming.SafeIffIdle` shows to be needed; what happens otherwise is in `Arming`.
- ReadyQueue.Scheduler.StartTask: the two words that start_task pushes onto the stack of the task, which is a block that only the task uses.
- KernelRuns.StepKeeps: arms such timers in no step; what happens otherwise is in `Arming`.
- KernelRuns.RunKeeps: arms such timers in no step; what happens otherwise is in `Arming`.
- KTimer.TimerControl.KSetTimerTime: one call without interruption; interrupted calls are the runs of `Arming`.
- A timer event carries the number of its timer in place of its address.
- FileSystem.RootFs.GetFileSize: the -1 when k_malloc has no memory for the directory.
- FileSystem.RootFs.GetFileStartCluster: the -1 when k_malloc has no memory for the directory.
- FileSystem.RootFs.ReadFile: what it reads and writes once k_malloc has no memory for a buffer, which is when `FatBuffers.ClustersUntilFull` says; the reader does not look at the null pointer.
- FatBuffers.GrantedIff: nothing else is allocated or freed during the read.
- FatBuffers.ClustersUntilFull: nothing else is allocated or freed during the read.
- FileSystem.RootFs.PartitionRead: the drive delivers the sectors asked for; the ATA port protocol, and counts of more than 256 sectors, which do not fit its register, are not modelled.
- FileSystem.RootFs.GetNextCluster: get_location_of_n_fat_copy has no return statement; the model takes the value that its name and arguments mean, the start of the FAT region.
- Memory around the FAT buffer, which get_next_cluster reads for a cluster outside the FAT, is a parameter of the volume: the same value on every call, although each call has another buffer.
- Fat16Spec.ClustersOf: assumes sectors of 512 bytes and a root directory of whole sectors, since the buffers of the reader are too small otherwise.
- The fields of the boot sector that the reader only prints, long names, subdirectories, writing.
- Compositor.FrameBuffer.RefreshScreen: for layers that lie inside the screen; partly hidden layers write into neighbouring rows or outside video memory.
- Compositor.FrameBuffer.DrawLayer: for layers that lie inside the screen; partly hidden layers write into neighbouring rows or outside video memory.
- Compositor.FrameBuffer.MovLayerZ: for layers that lie inside the screen; partly hidden layers write into neighbouring rows or outside video memory.
- LayerStack.Screen.MovLayerZ: a request for level 256 is excluded, as it indexes past the stack; the closing refresh is `Compositor.FrameBuffer.MovLayerZ`.
- TextConsole.Console.TuiPutchar: a call without interruption; what an interrupting message stores is in `ConsoleInterrupts`.
- TextConsole.Console.KPrintf: a call without interruption, as by the interrupt handlers.
- ConsoleInterrupts.SafeFromMessagesIff: one task and the interrupts; several tasks in tui_putchar at once are not modelled.
- The contents of layers, fonts, the mouse pointer and the hardware cursor of the text console.
- KString.KSprintf: buffer, format and arguments do not overlap and no %d is given INT_MIN, whose negation the source cannot represent.
- KString.PutLetter: buffer, format and arguments do not overlap and no %d is given INT_MIN, whose negation the source cannot represent.
- KString.KItoa: INT_MIN, and a negative number in a base other than 10, are excluded; the latter indexes before the digit table.
- k_memmove and k_strncmp, whose loops do not do what their names say, and the other string functions.
- Moving the kernel image and switching stacks in the bootstrap, and turning paging on.
- The present AVL and L bits of a descriptor slot are kept, as the installers never store them.
- palloc, pfree and proc_umem_alloc, which mark nothing as used, and initial_global_page_table, which is not called.
- BootLoader.ReadSector: the drive does not fail; the retry path, which leaves words on the stack, is not modelled.
- BootLoader.Load: the chain of the kernel file ends and fits below one megabyte; a cyclic chain is loaded for ever.
- BootLoader.LoadChain: the chain of the kernel file ends and fits below one megabyte; a cyclic chain is loaded for ever.
