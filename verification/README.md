# A verified model of dlChecker

dlChecker finds deadlocks in a running program. Wrapped `pthread_mutex_lock` and
`pthread_mutex_unlock` push WAIT, HOLD and RELEASE events into one ring queue per thread; a checker
thread takes the events, maintains a graph of threads and mutexes, and from time to time looks for
strongly connected components in it. All memory comes from a first-fit heap and from fixed-block pools.
This project models these parts in Dafny, in the form the C code has (vertex objects with arc lists and
marks, arrays used as stacks, headers in a heap array, a ring buffer with wrapping counters, chained
buckets, an intrusive free list), and proves what they promise, one by one and together.

| file | what it holds |
|---|---|
| `Utils.dfy`, `Graph.dfy`, `Walks.dfy`, `LockGraph.dfy` | graphs, reachability, components, cycles, walks inside a component; the lock graph as a value and what each event does to it |
| `Protocol.dfy`, `Deadlock.dfy` | tracker, native mutexes, queues and checker as one state machine; when a cycle in the graph is a deadlock |
| `Tracker.dfy`, `Passes.dfy`, `Consumer.dfy` | the event generators and the dispatcher, and the checker's pass over the queues while the threads go on, as code proved against those steps |
| `Vertex.dfy`, `EventLoop.dfy`, `Degrees.dfy` | vertex objects with their arc lists; the handlers, the detection and its clean-up; the books of the arc pool |
| `SccSpec.dfy`, `SccLoop.dfy`, `Tarjan.dfy` | the recursive search with its persistent marks: invariant, loop, and the code over its arrays |
| `Detection.dfy`, `Display.dfy`, `Report.dfy` | detections over whole runs: what they find, display and report |
| `Feeding.dfy`, `StaleMarks.dfy`, `HiddenDeadlock.dfy` | two runs of the code: a deadlock missed by one detection, and one found but not displayed |
| `HeapSpec.dfy`, `Heap.dfy`, `Alloc.dfy` | the first-fit heap as a tiling, as headers in an array, and the accounting wrapped around it |
| `Bits.dfy`, `Lfqueue.dfy`, `QueueSteps.dfy` | powers of two and wrapping counters; the ring queue as code, and interleaved step by step |
| `HashMap.dfy`, `HashMapIterator.dfy`, `MemPool.dfy` | the chained hash map, its deletion-tolerant iterator, the block pools |

## How the pieces meet

`Protocol` separates the native operation from the push of its event and lets the checker consume the
queues in any relative order, so a mutex vertex may have several outgoing arcs for a while. `Tracker` and
`Consumer` show that the code takes exactly these steps, and `Passes` that a pass leaves out nothing the
threads may do meanwhile. `EventLoop.Checker` is proved against `LockGraphs.Handle` (events) and
`Detection.DetectIn` (detections), `DetectIn` is what the search of `Tarjan.SccSearch` establishes, and the
theorems of `Detection` and `Deadlock` are about runs of these.

A deadlock present when a pass over the queues begins is in a block of the second detection after that
pass, whatever the other threads do meanwhile (`DeadlockFoundAfterPass`); and a block whose threads have
nothing queued is one deadlock, no more and no less (`ReportIsDeadlock`).

Four things one might expect of the code are false. Each has a concrete run or input and an exact condition:

- A cycle in the graph is not always a deadlock: events still queued can make it a false one
  (`FalseAlarm`). Empty queues of its threads are sufficient (`QuietCycleIsDeadlock`); the exact condition
  is that the cycle is still there once the queued events are replayed (`DrainedCycleIsDeadlock`).
- A detection does not find every cycle: the clean-up leaves a non-requesting owner stamped, and the next
  search skips it, whatever order it takes (`CircleIsMissed`, and the run `MissedOnce`). A cycle is found
  exactly if none of its vertices was stamped before (`CycleFoundIff`), and the second detection at the
  latest finds it (`CycleAtTwoDetections`).
- What is found is not always displayed, although README.md:197 of the repository says that a cycle leads to
  a report: the code asks only whether the first block has two vertices or more. Whatever the search does,
  if it starts from a thread that merely waits, the deadlock of two others is found and hidden
  (`FoundNotShown`, and the run `FoundAndHidden`). With nothing queued, everything found is displayed exactly
  if there is no unstamped cycle or the first unstamped root leads to one (`SettledDisplay`;
  `DisplayCompleteIff` asks less of the state). "Nothing queued" includes that no thread is between a native
  unlock and the push of its RELEASE.
- The heap's rounding wraps for the three largest sizes, which then get 12 bytes (`RoundedCovers`); the
  wrapper in `alloc.c` refuses such sizes beforehand.

The documentation speaks of room for 1024 mutexes; the code reserves 512 mutex vertices, and the model
follows the code.

## Model

| member | source | states |
|---|---|---|
| LockGraphs.HandleWait | src/eventLoop.c:76-121 | a WAIT of a thread that waits for nothing aborts exactly if a pool is exhausted, otherwise adds the one arc and keeps the graph bipartite, one arc per thread, requests exact |
| LockGraphs.HandleHold | src/eventLoop.c:130-174 | the HOLD that answers a WAIT never aborts and turns the arc round |
| LockGraphs.HandleRelease | src/eventLoop.c:183-221 | the RELEASE of a held mutex never aborts and removes that arc only, whatever other arcs the mutex has |
| LockGraphs.HandleOk | src/eventLoop.c:229-232 | an event changes its own thread's view as it says and the view of no other thread |
| LockGraphs.VertexBound | include/internal.h:40-42 | within the two vertex pools the search arrays of 1024 entries suffice |
| Protocol.OwnerStep | src/trait.c:115-126 | native ownership and the threads' held sets and phases agree after every step |
| Protocol.ProducerStep | src/trait.c:181-299 | pushes and native operations keep the invariant: queued events lead from the checker's view to what the thread has pushed |
| Protocol.ConsumeStep | src/eventLoop.c:248-252 | consuming an event keeps the invariant: graph shape, vertices, views and queues |
| Protocol.RunInv | src/eventLoop.c:234-255 | the invariant holds over every run of every interleaving |
| Protocol.ReachableInv | src/trait.c:115-126 | and so in every reachable state |
| Protocol.QueuesAfterWait | src/dispatcher.c:43-82 | the first WAIT of a thread takes one of the 512 queues, a later one none |
| Protocol.ThreadPoolSuffices | include/internal.h:40 | whoever has an event queued finds its thread vertex or a block for it: the queues run out first |
| Protocol.AbortExactly | src/dispatcher.c:16-24 | in a reachable state a step aborts exactly on the first WAIT of a thread when all queues are in use, on a push into a full queue, or on consuming a WAIT with the arc pool, or for a new mutex the mutex pool, exhausted; no other assertion of handlers and edge operations can fail |
| Protocol.OnlyTheLockBlocks | src/trait.c:115-126 | a thread can always do its next step, unless that is to obtain a mutex somebody owns; the checker can take an event of a thread exactly if one is queued |
| Protocol.CircularWaitStays | src/trait.c:115-120 | threads that wait for each other in a circle do so for ever |
| Protocol.DrainedCycleIsDeadlock | src/eventLoop.c:234-255 | in any state, the cycle that the outstanding events lead to is a real circular wait, and conversely |
| Protocol.LinkIsReal | src/trait.c:115-120 | a drained wait-for link means that the thread really waits for a mutex the other really owns |
| Deadlock.CycleHasPairs | src/vertex.c:33-48 | every cycle of the graph that starts with a thread is spelled out by a list of thread and mutex pairs |
| Deadlock.InnerOwner | src/eventLoop.c:76-221 | among threads with empty queues, the one a requested mutex points to, if it asks itself, is the real owner |
| Deadlock.QuietCycleIsDeadlock | src/eventLoop.c:76-221 | where the threads of a circle have empty queues it is in the graph if and only if it is real, whatever the other threads have queued |
| Deadlock.CycleIffDeadlock | README.md:151 | with all queues empty the graph has a cycle if and only if threads are deadlocked |
| Deadlock.CaughtCycleStays | src/eventLoop.c:234-255 | once its events are consumed a deadlock stays in the graph under every later step |
| Deadlock.PassCatchesDeadlock | src/eventLoop.c:234-255 | after any run that takes at least what the deadlocked threads had queued they are still deadlocked, their circle is in the graph and their queues are empty |
| Deadlock.GraphFollowsConsumed | src/eventLoop.c:234-255 | confluence: arcs, request map and vertices depend only on what was consumed from each thread, not on the interleaving |
| Deadlock.FalseAlarm | README.md:378 | a reachable state whose graph has a cycle while nobody is deadlocked: the mutex has two outgoing arcs because a RELEASE is still queued |
| Tracker.QueuePools.constructor | src/internal.c:89-98 | the pools of the queues and of their buffers, nothing in use |
| Tracker.Dispatcher.DispatcherInit | src/dispatcher.c:43-82 | the queue is made once, empty, with all 256 places, from a block of each pool; aborts exactly if it needs them and they are used up |
| Tracker.Dispatcher.Invoke | src/dispatcher.c:16-24 | the put returns 1 exactly if the queue was not full, and then appends the recorded event |
| Tracker.Dispatcher.GenerateWaitEvent | src/trait.c:181-238 | is the step PushWait of the protocol in every state with that many queues in use, aborts included |
| Tracker.Dispatcher.GenerateHoldEvent | src/trait.c:240-258 | is the step PushHold; the assertions on the dispatcher and on the recorded mutex hold |
| Tracker.Dispatcher.GenerateReleaseEvent | src/trait.c:260-299 | is the step PushRelease |
| Tracker.Dispatcher.Locked | src/trait.c:115-120 | what the native lock does to the thread is the step NativeLock, which waits as long as the mutex has an owner |
| Tracker.Dispatcher.Unlocked | src/trait.c:122-126 | what the native unlock does is the step NativeUnlock |
| Tracker.Dispatcher.Taken | src/lfqueue.c:113-143 | what the checker takes of the queue meanwhile, on the queue object and in the thread's books |
| Tracker.Dispatcher.MutexLock | src/trait.c:115-120 | WAIT, native lock, HOLD, with any number of events taken in between; aborts exactly if there is no room for WAIT, or none then for HOLD |
| Tracker.Dispatcher.MutexUnlock | src/trait.c:122-126 | the native unlock first, then RELEASE |
| Passes.AfterIsAnyRun | src/trait.c:115-126 | every run of the other threads is what they make of its own list of steps, so that nothing they may do during a pass is left out |
| Passes.PassIsAnyRun | src/eventLoop.c:242-254 | every run in which the checker works off the queues in order, with anything the others can do in between, is the pass for some choice of their moves |
| Consumer.OtherStep | src/trait.c:115-126 | what another thread does meanwhile is its step of the protocol, if it is enabled, on its own queue object; graph and other queues stay |
| Consumer.TakeOne | src/eventLoop.c:248-252 | one event taken and handled is one Consume step, on the queue object and on the checker's objects |
| Consumer.DrainQueue | src/eventLoop.c:245-253 | exactly as many events as the queue held when its length was read, in order and from this queue only, with all that the threads do before each of them |
| Consumer.EventLoopEnter | src/eventLoop.c:234-255 | the pass, with all that the threads do in between, is a run of the protocol that takes from each listed queue every event it held at the start, and from no other queue; it aborts only where such a step aborts |
| Consumer.OrderDoesNotMatter | src/eventLoop.c:242-243 | two passes that take the same number of the events queued at the start lead to the same graph, whatever order the hash map lists the queues in and whatever is pushed meanwhile |
| Consumer.PassMeetsReality | README.md:151 | after a pass during which anybody may push, every deadlock that was there at the start is in the graph and still one, and a circle of threads with empty queues is in the graph if and only if it is a deadlock |
| Consumer.QuietPassMeetsReality | README.md:151 | if nobody pushes during the pass there is a cycle in the graph after it if and only if threads are deadlocked |
| Vertices.Vertex.AddEdge | src/vertex.c:33-48 | aborts exactly if the arc is there or the pool is empty; head insertion, both degrees and the pool's count go up by one |
| Vertices.Vertex.DeleteEdge | src/vertex.c:50-85 | aborts exactly if there is no such arc; unlinks the first one only, and undoes the counters |
| EventLoop.Checker.Create | src/vertex.c:188-195 | a new vertex object with no arcs and clear marks, or NULL exactly if its pool is exhausted |
| EventLoop.Checker.GetThread | src/eventLoop.c:76-95 | finds the one vertex of the thread, or creates it |
| EventLoop.Checker.GetMutex | src/eventLoop.c:101-108 | likewise for the mutex |
| EventLoop.Checker.PutRequest | src/eventLoop.c:118-120 | the thread joins the requesting ones; 1 exactly if it was not among them |
| EventLoop.Checker.RemoveRequest | src/eventLoop.c:171-173 | the thread leaves the requesting ones; 0 exactly if it was among them |
| EventLoop.Checker.Link | src/vertex.c:33-48 | on the objects, adds exactly this arc to the graph they spell out |
| EventLoop.Checker.Unlink | src/vertex.c:50-85 | on the objects, removes exactly this arc |
| EventLoop.Checker.WaitLockHandler | src/eventLoop.c:76-121 | the objects spell out the graph that the value-level handler gives, and abort when it does |
| EventLoop.Checker.HoldLockHandler | src/eventLoop.c:130-174 | likewise for HOLD |
| EventLoop.Checker.ReleaseLockHandler | src/eventLoop.c:183-221 | likewise for RELEASE |
| EventLoop.Checker.EventHandler | src/eventLoop.c:223-232 | dispatches to the handler of the event's type |
| EventLoop.Checker.ClearTarjanStatus | src/eventLoop.c:400-420 | clears stamp, low value and stack mark of exactly the requesting threads and the heads of their arcs |
| EventLoop.Checker.CleanUp | src/eventLoop.c:365 | what stays stamped is what was or became stamped, less requesting threads and what they ask for |
| EventLoop.Checker.SearchAndDisplay | src/eventLoop.c:322-364 | blocks are the components, the first one is reached from the first unstamped root in the order of the map; displayed are all blocks of two vertices or more, in order, once each and nothing else, if the first one is such, and otherwise nothing |
| EventLoop.Checker.StrongConnectedComponent | src/eventLoop.c:312-366 | a whole detection, on the objects, is one DetectIn step of the model with the order of the request map, and displays exactly that |
| Degrees.EndsCount | src/vertex.c:33-85 | a vertex has as many tails and heads as arcs |
| Degrees.ArcBlocksAreDegrees | src/vertex.c:218-240 | the live blocks of the arc pool number the sum of the outdegrees, and of the indegrees |
| SccSpec.PushKeepsInv | src/eventLoop.c:268-273 | stamping and pushing a fresh vertex keeps the search invariant |
| SccSpec.BlackenKeepsInv | src/eventLoop.c:292-293 | so does leaving a vertex whose low value is below its stamp |
| SccSpec.TopIsScc | src/eventLoop.c:292-309 | when low equals the stamp, the stack from the vertex up is a strongly connected component |
| SccSpec.TopIsClosed | src/eventLoop.c:292-309 | and with what was emitted before it has no way out |
| SccSpec.EmitKeepsInv | src/eventLoop.c:292-309 | popping and emitting it keeps the search invariant |
| SccSpec.StackIsEmpty | src/eventLoop.c:349-356 | between two roots nothing is left on the stack |
| SccSpec.SearchComplete | src/eventLoop.c:349-356 | after the root loop the blocks are the components of the unstamped graph that the requesting threads reach |
| SccSpec.EachComponentOnce | src/eventLoop.c:349-356 | each such component is a block, at exactly one place |
| SccSpec.ArcsLeadBack | src/eventLoop.c:292-309 | reverse topological order: arcs never lead to a later block |
| SccSpec.ClockBounded | src/eventLoop.c:265-268 | the clock never passes the number of vertices, so that at 1024 of them the C short does not overflow |
| SccSpec.BlocksFit | src/eventLoop.c:307-308 | there are no more counts than vertices, so the count array suffices |
| SccLoop.StampedArc | src/eventLoop.c:286-287 | the arc to a stamped vertex: low takes its stamp exactly if it is on the stack |
| SccLoop.TreeArc | src/eventLoop.c:283-285 | the arc to a fresh vertex: low takes the child's low |
| SccLoop.RootVisited | src/eventLoop.c:349-356 | the first root that is visited is the first unstamped one, and the first block is reached from it |
| SccLoop.RootSkipped | src/eventLoop.c:353-355 | a root that is stamped when its turn comes does not change that |
| Tarjan.SccSearch.Enter | src/eventLoop.c:268-273 | stamp, low value and push |
| Tarjan.SccSearch.PopOne | src/eventLoop.c:299-305 | one pop, one entry of the output array, one mark cleared |
| Tarjan.SccSearch.PopBlock | src/eventLoop.c:292-309 | moves the stack from the vertex up to the output array, reversed, and its length to the counts |
| Tarjan.SccSearch.FollowArc | src/eventLoop.c:282-289 | one turn of the loop over the arcs keeps the loop invariant, recursion included |
| Tarjan.SccSearch.Visit | src/eventLoop.c:265-310 | the recursive search keeps the invariant and ends with its vertex popped, or on the stack with a justified low value; it terminates on the number of unstamped vertices |
| Tarjan.SccSearch.TryRoot | src/eventLoop.c:349-356 | one turn of the root loop keeps the invariant and what is said of the first block |
| Tarjan.SccSearch.SearchAll | src/eventLoop.c:349-356 | `ssc` cut by `sscCount` is exactly the output described, for every order of the roots, and its first block is reached from the first unstamped root of that order |
| Tarjan.SccSearch.DisplayInfo | src/eventLoop.c:383-398 | hands over the blocks of two vertices or more, in order |
| Detection.StaleAreIdleThreads | src/eventLoop.c:400-420 | after a clean-up only threads without outgoing arcs can still be stamped |
| Detection.StaleExactly | src/eventLoop.c:349-365 | stamped after it are exactly the threads without outgoing arcs that were stamped before or were reached from a requesting thread |
| Detection.CycleFoundIff | src/eventLoop.c:353-355 | a cycle lies inside one big block if and only if none of its vertices was stamped before |
| Detection.BigBlockHasCycle | src/eventLoop.c:293-309 | a block of two vertices or more contains a cycle |
| Detection.RequestsSuffice | README.md:28 | starting from the requesting threads only loses nothing: without stale marks there is a big block if and only if there is a cycle anywhere |
| Detection.RunSysInv | src/eventLoop.c:312-366 | over every run with any number of detections only threads are stamped between detections |
| Detection.CycleAtTwoDetections | src/eventLoop.c:400-420 | a cycle that is there at two detections in a row lies in one block of the second |
| Detection.CaughtForEver | src/eventLoop.c:312-366 | a deadlock that one detection has seen stays consumed and unstamped for ever |
| Detection.DeadlockIsFound | src/eventLoop.c:349-356 | after the first detection that follows its events, every later detection emits a block with the whole deadlock |
| Detection.DeadlockFoundAfterPass | src/trait.c:131-162 | so does the second detection after a pass, for every deadlock present when the pass begins, whatever happens in between |
| Detection.QuietBlockIsSimple | src/report.c:66-78 | a component whose threads have empty queues has exactly one arc inside at each vertex |
| Detection.WalkIsDeadlock | src/report.c:66-78 | then any walk round it, from a thread, is one circle of threads that really wait for each other, with no vertex left out |
| Detection.ReportIsDeadlock | README.md:363 | the vertices of a big block whose threads have empty queues are exactly those of one real deadlock |
| StaleMarks.HolderKeepsStamp | src/eventLoop.c:400-420 | a search that reaches a thread that asks for nothing leaves exactly that thread stamped |
| StaleMarks.CircleIsMissed | src/eventLoop.c:353-355 | with that stamp every search, in any order, misses the circle the thread has closed meanwhile |
| StaleMarks.CircleIsDisplayed | src/eventLoop.c:358-364 | without stamps, and from a thread of the circle, it is found and displayed |
| StaleMarks.MissedOnce | src/eventLoop.c:400-420 | a run of the code with three detections: the second one, with a stale mark, misses a real deadlock and displays nothing, the third one displays it |
| Display.FirstBlock | src/eventLoop.c:349-356 | the first block is a component without a way out that the first unstamped root reaches |
| Display.DisplaySuffices | src/eventLoop.c:358-364 | if that root reaches no vertex without a way on, every block of two or more is displayed |
| Display.DisplayFails | src/eventLoop.c:358-364 | if that root reaches no large component without a way out, nothing is displayed, though there be cycles |
| Display.DisplayCompleteIff | src/eventLoop.c:358-364 | where no mutex that the first unstamped root reaches has two arcs, every big block is displayed if and only if there is no unstamped cycle or that root leads to one; in general the condition is necessary |
| Display.SettledDisplay | src/eventLoop.c:358-364 | with nothing queued and no RELEASE still to be pushed the condition is exact |
| Display.DisplayedIsDeadlock | README.md:363 | whatever list of vertices is displayed, if its threads have empty queues it is exactly one real deadlock |
| HiddenDeadlock.FoundNotShown | src/eventLoop.c:358-364 | every search that starts from a thread that waits outside the circle finds the deadlock and displays nothing |
| HiddenDeadlock.FoundAndHidden | src/eventLoop.c:312-366 | a run of the code from the empty graph to such a detection, with a real deadlock and nothing queued |
| Report.ReportDeadLock | src/report.c:38-81 | starts at the last thread of the block and takes each time the first arc that stays inside, num times or until there is none |
| Report.FirstInsideIs | src/report.c:68-77 | of the arcs that stay inside, the one nearest the head of the list is taken |
| Report.ReportFollowsBlock | src/report.c:66-78 | on a true component the walk takes exactly num real arcs; if each member has one arc inside it is the cycle, once round |
| Report.ReportBlock | src/report.c:38-81 | the same for the objects the checker holds |
| Walks.HasArcInside | src/report.c:68-77 | the inner loop always finds a next vertex in the component |
| Walks.HasThread | src/report.c:53-61 | a block of two vertices or more has a thread to start from |
| Walks.WalkIsTheCycle | src/report.c:66-78 | where each member has one arc inside, a walk of as many steps as members meets each once and returns |
| HeapSpec.AllocKeepsHeap | src/mem.c:159-205 | taking a fitting block, split or not, keeps the tiling, the alignment and that no two neighbours are free |
| HeapSpec.AllocTakes | src/mem.c:159-190 | a request gets less than 36 bytes more than it asks for; where the block has 36 more or above, exactly what it asks for, with one free block behind it; otherwise the block as it is |
| HeapSpec.FreeKeepsHeap | src/mem.c:319-355 | merging at most two neighbours keeps it too |
| HeapSpec.FreeUndoesAlloc | src/mem.c:283-355 | freeing the block just allocated restores the tiling |
| HeapSpec.FreeEndsOneBlock | src/mem.c:283-308 | a release ends the life of exactly its own block |
| HeapSpec.ReleaseAll | src/mem.c:283-355 | releasing all live blocks in any order leaves the single initial free block |
| HeapSpec.LiveAfterAlloc | src/mem.c:159-190 | an allocation adds one live block and leaves place and size of the others alone |
| HeapSpec.LiveAfterFree | src/mem.c:283-355 | a release removes its block and leaves place and size of the others alone |
| HeapSpec.LiveDetermines | src/mem.c:310-355 | two heaps in order with the same live blocks are the same: what is free is one block between two live ones, and no history shows |
| HeapSpec.PayloadsDisjoint | src/mem.c:207-214 | payloads of live blocks do not overlap and lie inside the heap |
| HeapSpec.AllocBytes | src/mem.c:184-195 | an allocation adds its payload and its header to the used bytes |
| HeapSpec.FreeBytes | src/mem.c:283-308 | a release takes exactly that away |
| HeapSpec.HeadersCounted | src/mem.c:184-195 | used bytes are at least one header for each live block |
| HeapSpec.LowestFreeAfterFlag | src/mem.c:299-302 | the cached pointer moves down exactly if the freed block is lower |
| HeapSpec.RoundedCovers | src/mem.c:130-138 | the size looked for covers the request exactly if the rounding did not wrap, and is then the least multiple of four from 12 on that does |
| Heap.MemManager.constructor | src/mem.c:94-115 | one free block and an end entry |
| Heap.MemManager.MemAlloc | src/mem.c:123-222 | NULL exactly if nothing is asked or no free block fits; otherwise the lowest fitting block, cut to the size asked for when the rest can stand alone and less than 36 bytes larger in any case; the other live blocks stay; `used`, `max`, `err` and the cached pointer follow |
| Heap.MemManager.NothingBehind | src/mem.c:147-149 | the scan may stop at memSizeAligned - size |
| Heap.MemManager.Take | src/mem.c:159-205 | the block is used, and cut to the size asked for if the rest can stand alone; `used`, `max` and the cached pointer follow |
| Heap.MemManager.Split | src/mem.c:170-183 | the headers spell out the tiling with the new block in it |
| Heap.MemManager.AdvanceFree | src/mem.c:197-205 | the cached pointer ends at the lowest free block or at the end |
| Heap.MemManager.MemAllocSize | src/mem.c:231-245 | the payload size of a live block |
| Heap.MemManager.MemFree | src/mem.c:283-308 | the block is freed and merged, no other live block changes; `used` and the cached pointer follow; NULL is ignored |
| Heap.MemManager.MemPlugHoles | src/mem.c:319-355 | merges with the free neighbours, after and before, on the headers |
| Heap.MemManager.Join | src/mem.c:337-340 | one merge, on the headers |
| Alloc.Zmalloc.TryMallocUsable | src/alloc.c:97-114 | NULL exactly for half the address space or when no free block fits the request, 8 bytes if none are asked for, rounded up; otherwise what is given and counted covers the request and exceeds it by less than rounding and an unusable rest; counted bytes plus one header per live block equal the manager's bytes |
| Alloc.Zmalloc.Zfree | src/alloc.c:164-181 | uncounts the size of the block it ends, and ends no other |
| Alloc.Zmalloc.CountsFit | src/alloc.c:164-187 | the counter never falls below what a live block holds, so that it cannot wrap |
| Bits.OneBitIsPower | include/dlcDef.h:160-163 | n & (n - 1) is 0, on the machine word of a non-zero n, exactly for powers of two |
| Bits.Fls | include/dlcDef.h:125-157 | the position of the highest bit, by halving |
| Bits.RoundDownPowOfTwo | include/dlcDef.h:170-173 | the largest power of two below its argument |
| Bits.WrapKeepsSlot | src/lfqueue.c:69-101 | masking a counter that has wrapped still selects the right slot |
| Bits.MaskIsSlot | src/lfqueue.c:87-87 | the mask with size - 1, on machine words, is the remainder by a size that is a power of two |
| Lfqueues.Sub32OfCounters | include/lfqueue.h:45-48 | in - out in 32 bits is the number of elements, also across a wrap |
| Lfqueues.Lfqueue.constructor | src/lfqueue.c:41-56 | a capacity that fails the bit test is rounded down to a power of two |
| Lfqueues.Lfqueue.Used | include/lfqueue.h:45-48 | the number of elements |
| Lfqueues.Lfqueue.Avail | include/lfqueue.h:50-53 | the number of free slots |
| Lfqueues.Lfqueue.IsFull | include/lfqueue.h:35-38 | exactly when it is full |
| Lfqueues.Lfqueue.IsEmpty | include/lfqueue.h:40-43 | exactly when it is empty |
| Lfqueues.Lfqueue.Put | src/lfqueue.c:69-101 | appends as many as fit, in order, with one copy or two |
| Lfqueues.Lfqueue.CopyIn | src/lfqueue.c:69-101 | the copy, split at the end of the buffer, fills exactly the slots behind the last element |
| Lfqueues.HoldsAfterPut | src/lfqueue.c:69-101 | a ring that holds a sequence holds the longer one after the copy |
| Lfqueues.Lfqueue.Get | src/lfqueue.c:113-143 | takes up to that many, oldest first |
| Lfqueues.Lfqueue.CopyOut | src/lfqueue.c:113-143 | the copy out, split at the end of the buffer |
| QueueSteps.NoSlotIsReadWhileWritten | src/lfqueue.c:69-143 | the slot being written is none that holds an element still to be taken |
| QueueSteps.StepInv | src/lfqueue.c:69-143 | reading the peer's counter, copying one element and publishing keep the invariant in any interleaving |
| QueueSteps.BeginGetSettles | src/lfqueue.c:113-128 | a get begins exactly if something is queued and settles on as many elements as are there, up to those asked for |
| QueueSteps.BeginPutSettles | src/lfqueue.c:69-85 | a put begins exactly if there is room and settles on as many elements as fit |
| QueueSteps.GetHandsOut | src/lfqueue.c:113-143 | whatever the producer does meanwhile, a get hands out exactly the oldest elements that were queued when it began, as many as it settled on |
| QueueSteps.PutPublishes | src/lfqueue.c:69-101 | whatever the consumer does meanwhile, a put publishes exactly the first elements given, as many as there was room for when it began |
| QueueSteps.CallsGoOn | src/lfqueue.c:69-143 | a call that has begun can always go on to its end: neither side waits for the other |
| QueueSteps.GetIsCall | src/lfqueue.c:113-143 | lfqueueGet, on the queue object, is a run of these steps that hands out what it returns |
| QueueSteps.PutIsCall | src/lfqueue.c:69-101 | lfqueuePut, on the queue object, is a run of these steps that publishes as many elements as it returns |
| QueueSteps.RefinesFifo | src/lfqueue.c:69-143 | over every run what was taken is a prefix of what was put, and at most a capacity lies in between |
| HashMaps.MapNextPower | src/hashMap.c:76-86 | the smallest power of two from 16 on that is large enough, or LONG_MAX; it fits the int field that takes it exactly for a size of at most 2^30 |
| HashMaps.HashMap.constructor | src/hashMap.c:189-202 | an empty map; the number of buckets is 16 or the least power of two that is large enough |
| HashMaps.HashMap.Walk | src/hashMap.c:95-113 | finds the key's entry in its bucket exactly if the key is in the map |
| HashMaps.HashMap.Find | src/hashMap.c:244-260 | lookup |
| HashMaps.HashMap.Get | src/hashMap.c:268-275 | lookup of the value, NULL exactly if the key is absent |
| HashMaps.HashMap.AddRaw | src/hashMap.c:133-151 | head insertion of a key that was absent |
| HashMaps.HashMap.SetValue | src/hashMap.c:174-179 | the update branch changes the value of this key only |
| HashMaps.HashMap.Put | src/hashMap.c:159-180 | insert or update; returns 1 exactly for a new key |
| HashMaps.HashMap.Remove | src/hashMap.c:283-305 | removes the key and nothing else; returns 0 exactly if it was there |
| HashMaps.HashMap.Unlink | src/hashMap.c:290-299 | the entry leaves its chain, at its head or inside |
| HashMaps.HashMap.UniqueEntry | src/hashMap.c:133-151 | no key occurs twice |
| HashMaps.HashMap.InMapInBucket | src/hashMap.c:95-113 | a key is in the map exactly if the bucket of its hash value has an entry for it |
| HashMaps.CutLinked | src/hashMap.c:290-294 | unlinking one entry leaves the chain of the others |
| HashMapIterators.Iterator.Next | src/hashMap.c:355-375 | returns the entries ahead one by one, then NULL |
| HashMapIterators.Iterator.AfterCut | src/hashMap.c:367-371 | deleting an entry already returned changes nothing ahead |
| HashMapIterators.TraversalIsComplete | src/hashMap.c:355-375 | a traversal meets one entry for each key |
| HashMapIterators.Sweep | src/hashMap.c:355-375 | iterating and deleting on the way: every key is seen exactly once and exactly the selected ones are gone |
| MemPools.MemPool.Alloc | src/mempool.c:107-135 | the first free block, or NULL and an error exactly if there is none; only its header changes |
| MemPools.MemPool.Free | src/mempool.c:146-168 | a live block goes to the front of its list; a double free or a foreign block changes nothing but the error count |
| MemPools.MemPool.AllocThenFree | src/mempool.c:107-168 | a round trip restores list and memory |
| MemPools.MemPool.LinkAll | src/mempool.c:79-88 | the new blocks form one list in the order of their addresses |
| MemPools.MemPool.BackToBack | src/mempool.c:76-83 | blocks lie back to back, each behind one header, and fill the pool |
| MemPools.MemPool.Conservation | src/mempool.c:107-168 | each block is on the list once, or live with its header naming the pool; the list length is free_blocks |
| MemPools.MemPool.HeaderNames | src/mempool.c:151-154 | a header names a pool exactly if the block is a live block of that pool |
| MemPools.Region.Define | src/mempool.c:55-96 | the new pool lies behind all others and starts with every block free |
| MemPools.Region.Alloc | src/mempool.c:107-135 | an allocation leaves the other pools of the region alone |
| MemPools.Region.Free | src/mempool.c:146-168 | the other pools of the region are untouched |
| MemPools.Region.Store | src/mempool.c:134 | a user may write anything into the payload of its block |
| MemPools.Region.PayloadsDisjoint | src/mempool.c:55-96 | payloads of different blocks, of one pool or two, do not overlap |

## Left out

- Printing, back traces, colours, log macros, `dlsym` hooks, `prctl` and `gettid`: I/O and foreign calls; the words that `reportInfo` prints for an arc are not modelled.
- Threads that end, reuse of thread numbers and garbage collection (`gcForThread`): the set of threads is fixed.
- What `vertexSetInfo` stores with a vertex (names, back traces): only the kind and the number of a vertex are modelled.
- Filter and timer: when a detection runs is any point of a run.
- Spinlocks and hardware memory ordering: steps are atomic and memory is sequentially consistent; nothing is claimed for heap or map used by several threads at once.
- Native mutexes: the lock call succeeds once the mutex is free, only the owner unlocks, and asking for a mutex one holds blocks for ever.
- Consumer.OtherStep: during a pass a thread without a queue in the map does not push its first event, and a push that would abort does not happen; the iterator does not model a map that grows under it. `Protocol` allows such steps.
- EventLoop.Checker.Create: gives NULL where a pool is exhausted; the constructor in the source writes through that pointer, so that NULL stands for the program stopping there, before the test of the handlers.
- Map entries and tables come from `zmalloc`, which aborts when the heap is used up (`src/hashMap.c:142`, `src/alloc.c:117`): in `Protocol` and `Checker` they are taken not to run out.
- EventLoop.Checker.StrongConnectedComponent: takes the iteration order of the request map as a parameter; any order is allowed, and results that depend on it say so.
- Vertices.BlockPool counts live blocks only; which block is handed out is proved in `MemPool`.
- Arc lists are sequences on the vertex objects, and the vertex maps are maps; the chained hash map is proved apart in `HashMap`.
- Masks with a power of two less one are written as remainders (`MaskIsSlot` equates them on 32-bit words), and shifts as products with powers of two.
- Lfqueues: elements are abstract values; `size * esize` is taken not to overflow.
- HashMaps.HashMap.constructor: asks for at most 2^30 buckets, because the capacity is stored in an int; key and value destructors and string hashing are not modelled.
- `hashMapDestroy`, which returns early on an empty map, and `memCalloc`, whose overflow test never fires.
- `manager.avail`, never updated after the start, and the pool's `avail`, `used` and `max`, which mix headers and payload.
- MemPools.Region.Define: takes the region reserved by the linker script to be large enough, which the code does not test; failure of the small allocation for the pool object is not modelled.
- Payload bytes in the heap, and sizes other than those of a 64-bit target: a header takes 24 bytes.
- Linker script, Makefile, demo and test drivers.
