# JJS job scheduler, modelled in Dafny

JJS is a JUCE job system. Producers hand `Job`s to a `JobSystem`. The scheduler thread drains the
lock-free input FIFO into a priority queue, then dispatches one job at a time to a thread pool. Workers
run each job's action and push the finished job onto a completion FIFO. A timer on the message thread
drains the progress and completion FIFOs and runs callbacks. Callbacks are held in
scope-tracked containers: a `FunctionScope` that is destroyed silences every function registered under it.
A `CallbackMap` names such containers by identifier.

The model is one sequential state machine, built from six modules:

- `ScopeTrackedFunctions` models `ScopedFunctionContainer` and `FunctionScope` as an arena.
  - Scopes and containers are integer ids. The three vectors the objects keep are maps from those
    ids: a container's `scopes`, a scope's `scopedFunctions` and a scope's `containers`.
  - `std::function`s are opaque ids. A trigger yields the sequence of function ids it would call.
  - The datatype `Arena` and its `*Spec` functions say what each operation does.
  - Class `Registry` holds the same state in fields. It runs the source's loops, and each of its
    methods is proved equal to its spec function.
  - The destructor of `FunctionScope` is the explicit method `Destroy`.
- `LockFreeFifos` models `LockFreeFifo<T>` as a class over an array.
  - It keeps the two cursors of a `juce::AbstractFifo` of the same size.
  - The ghost sequence `Contents` holds the stored items.
  - The capacity is a constructor parameter.
- `Jobs` models `Job` as a value. Its object identity is an explicit `id`.
  - `Job::operator<` is `JobLess`.
  - The phases `executeAction` and `executeCallback` are the sequences of `Event`s they produce:
    hooks, closure calls, progress updates and container triggers.
- `JobSystems` models `JobQueue` and `JobSystem`.
  - `JobQueue` is the multiset of queued jobs, ordered by a `Comparator` that is a parameter.
  - The thread pool is the sequence `running` of jobs handed to it and not yet completed. Its job
    count is `|running|`, and `Size()` returns its thread count.
  - A worker finishing a job is the separate method `CompleteJob`.
  - `trace` records every hook and function the system runs, in order.
- `CallbackMaps` models `CallbackMap`: a map from identifier text to a container of the registry.
- `Wrappers` holds `Option`.

Three points where what the code does is easy to misread:

- The comments at Source/Job.h:37-38 say that the higher priority, then the lower position, is the
  greater job. The heap, however, is ordered by `std::less<Job*>`, the jobs' addresses (see Findings).
  The model covers both orders.
- `juce::AbstractFifo` keeps one slot free, so a `LockFreeFifo(n)` holds at most `n - 1` items;
  `Capacity()` is `size - 1`.
- `ScopedFunctionContainer::remove` only edits the container's list of scopes. It leaves the scope's
  own function entries in place, so if the same scope is added to the container again, the old
  functions run again on the next trigger. `RemoveThenAddRevives` states this.

## Model

| member | source | states |
|---|---|---|
| ScopeTrackedFunctions.WithoutMembers | Source/ScopeTrackedFunctions.h:70-77 | remove_if/erase leaves exactly the elements other than the removed scope |
| ScopeTrackedFunctions.WithoutAppend | Source/ScopeTrackedFunctions.h:70-77 | erasing distributes over concatenation, so the survivors keep their relative order |
| ScopeTrackedFunctions.WithoutAbsent | Source/ScopeTrackedFunctions.h:70-77 | erasing a scope that is not listed changes nothing |
| ScopeTrackedFunctions.WithoutIdempotent | Source/ScopeTrackedFunctions.h:70-77 | erasing twice is erasing once |
| ScopeTrackedFunctions.WithoutNoDup | Source/ScopeTrackedFunctions.h:70-77 | erasing keeps a duplicate-free scope list duplicate-free |
| ScopeTrackedFunctions.NoDupOccursOnce | Source/ScopeTrackedFunctions.h:103-111 | in a duplicate-free list a listed scope occurs exactly once |
| ScopeTrackedFunctions.IndexOf | Source/ScopeTrackedFunctions.h:105 | std::find: the first index holding the value, or the length when it is absent |
| ScopeTrackedFunctions.TaggedIn | Source/ScopeTrackedFunctions.h:85-87 | the inner trigger loop yields exactly the functions of one scope added through this container, in insertion order |
| ScopeTrackedFunctions.CollectIn | Source/ScopeTrackedFunctions.h:84-87 | the outer trigger loop yields the tagged functions scope by scope, in registration order |
| ScopeTrackedFunctions.SumSizesIn | Source/ScopeTrackedFunctions.h:91-94 | the counting loop adds up the sizes of the registered scopes' function lists |
| ScopeTrackedFunctions.TaggedMembers | Source/ScopeTrackedFunctions.h:85-87 | one scope contributes f exactly when it holds the entry (this container, f), and at most all its entries |
| ScopeTrackedFunctions.TaggedAppend | Source/ScopeTrackedFunctions.h:100-101 | an appended entry is called last among its scope's, and only by the container it was added through |
| ScopeTrackedFunctions.CollectMembers | Source/ScopeTrackedFunctions.h:84-87 | a trigger calls f exactly when some visited scope holds (this container, f) |
| ScopeTrackedFunctions.CollectAtMostSizes | Source/ScopeTrackedFunctions.h:89-95 | a trigger makes at most as many calls as the visited scopes hold entries |
| ScopeTrackedFunctions.CollectFrame | Source/ScopeTrackedFunctions.h:86 | a trigger depends only on the entries tagged with its own container |
| ScopeTrackedFunctions.CollectAppend | Source/ScopeTrackedFunctions.h:84-85 | visiting one more scope appends that scope's tagged functions |
| ScopeTrackedFunctions.TriggeredIff | Source/ScopeTrackedFunctions.h:81-88 | triggerFunctions calls f iff a currently registered scope holds f added through this container |
| ScopeTrackedFunctions.Triggered | Source/ScopeTrackedFunctions.h:80-88 | a container without scopes calls nothing, and a trigger never makes more calls than getNumFunctions counts |
| ScopeTrackedFunctions.NumFunctions | Source/ScopeTrackedFunctions.h:89-95 | getNumFunctions counts every entry of every registered scope, whatever container it was added through; no scopes count nothing |
| ScopeTrackedFunctions.SumSizesCountEach | Source/ScopeTrackedFunctions.h:91-94 | the counting loop's sum includes each listed scope's whole list |
| ScopeTrackedFunctions.NewScopeConsistent | Source/ScopeTrackedFunctions.h:47 | a new scope keeps the registry consistent and changes what no container triggers |
| ScopeTrackedFunctions.NewContainerConsistent | Source/ScopeTrackedFunctions.h:60 | a new container triggers nothing and changes what no other container triggers |
| ScopeTrackedFunctions.AddSpec | Source/ScopeTrackedFunctions.h:61-66 | add creates no ids; only the given scope's entries, that scope's containers and this container's scopes can change |
| ScopeTrackedFunctions.RemoveSpec | Source/ScopeTrackedFunctions.h:67-79 | remove erases the scope from this container alone and leaves every scope's entries and container lists untouched |
| ScopeTrackedFunctions.DestroySpec | Source/ScopeTrackedFunctions.h:116-122 | destruction ends exactly that scope, removes no container, and every other scope survives with its entries and container lists |
| ScopeTrackedFunctions.RemoveEach | Source/ScopeTrackedFunctions.h:119-120 | remove on each listed container erases the scope from exactly those containers and changes nothing else |
| ScopeTrackedFunctions.RemoveEachSnoc | Source/ScopeTrackedFunctions.h:119-120 | one more round of the destructor's loop is one more remove |
| ScopeTrackedFunctions.AddConsistent | Source/ScopeTrackedFunctions.h:61-66 | add keeps the back-link and no-duplicate invariants |
| ScopeTrackedFunctions.AddEffect | Source/ScopeTrackedFunctions.h:98-111 | add appends (this, f) to the end of the scope's list and leaves earlier entries alone; the scope then occurs exactly once; a new registration also appends this container to the scope's containers |
| ScopeTrackedFunctions.AddTwiceRegistersOnce | Source/ScopeTrackedFunctions.h:103-111 | a second add with the same scope changes neither the container's scopes nor the scope's containers |
| ScopeTrackedFunctions.AddThenTriggered | Source/ScopeTrackedFunctions.h:61-66 | after add, triggering the same container calls the new function |
| ScopeTrackedFunctions.AddLeavesOtherContainers | Source/ScopeTrackedFunctions.h:98-102 | add through one container changes what every other container triggers by nothing |
| ScopeTrackedFunctions.RemoveConsistent | Source/ScopeTrackedFunctions.h:67-79 | remove keeps the back-link and no-duplicate invariants |
| ScopeTrackedFunctions.RemoveEffect | Source/ScopeTrackedFunctions.h:67-79 | remove erases every occurrence, keeps the other scopes in order, and is idempotent |
| ScopeTrackedFunctions.RemoveThenAddRevives | Source/ScopeTrackedFunctions.h:67-79 | remove keeps the scope's entries, so adding the scope again makes the old function callable again |
| ScopeTrackedFunctions.RemoveEachReachesAll | Source/ScopeTrackedFunctions.h:116-122 | removing from the scope's own container list reaches every container that lists it |
| ScopeTrackedFunctions.DestroyByRemoveEach | Source/ScopeTrackedFunctions.h:116-122 | the destructor's loop followed by discarding the scope is DestroySpec, which is consistent |
| ScopeTrackedFunctions.DestroyEffect | Source/ScopeTrackedFunctions.h:116-122 | after destruction the registry is consistent, no container lists the scope, and every other registration is kept |
| ScopeTrackedFunctions.DestroyedContainer | Source/ScopeTrackedFunctions.h:116-122 | destruction leaves each container's list duplicate-free and without the scope |
| ScopeTrackedFunctions.DestroyedScopeSilenced | Source/ScopeTrackedFunctions.h:116-122 | after destruction a trigger calls f iff another registered scope holds f for that container |
| ScopeTrackedFunctions.Registry.constructor | Source/ScopeTrackedFunctions.h:60 | the registry starts empty and consistent |
| ScopeTrackedFunctions.Registry.NewScope | Source/ScopeTrackedFunctions.h:47 | FunctionScope(): a fresh id with no functions and no containers |
| ScopeTrackedFunctions.Registry.NewContainer | Source/ScopeTrackedFunctions.h:60 | ScopedFunctionContainer(): a fresh id with no scopes |
| ScopeTrackedFunctions.Registry.Add | Source/ScopeTrackedFunctions.h:61-66 | add, with addFunctionToScope and registerContainerToScope, is AddSpec and keeps the registry valid |
| ScopeTrackedFunctions.Registry.Remove | Source/ScopeTrackedFunctions.h:67-79 | remove is RemoveSpec and keeps the registry valid |
| ScopeTrackedFunctions.Registry.RemoveFromContainers | Source/ScopeTrackedFunctions.h:119-120 | the destructor's loop is RemoveEach of the scope's container list |
| ScopeTrackedFunctions.Registry.Destroy | Source/ScopeTrackedFunctions.h:116-122 | ~FunctionScope is DestroySpec and keeps the registry valid |
| ScopeTrackedFunctions.Registry.TriggerFunctions | Source/ScopeTrackedFunctions.h:80-88 | triggerFunctions calls exactly Triggered, in order, and changes nothing |
| ScopeTrackedFunctions.Registry.GetNumFunctions | Source/ScopeTrackedFunctions.h:89-95 | getNumFunctions is the total size of the registered scopes' lists, at least the number of calls a trigger makes |
| ScopeTrackedFunctions.Registry.GetNumScopes | Source/ScopeTrackedFunctions.h:96 | getNumScopes is the length of the container's scope list; zero means a trigger calls nothing |
| LockFreeFifos.LockFreeFifo.constructor | Source/LockFreeFifo.h:17 | a FIFO of the given size starts empty |
| LockFreeFifos.LockFreeFifo.GetNumItems | Source/LockFreeFifo.h:53 | the number of stored items, never above the capacity fixed at construction |
| LockFreeFifos.LockFreeFifo.Push | Source/LockFreeFifo.h:19-32 | false, with nothing changed, when full; otherwise true and the item is appended at the back |
| LockFreeFifos.LockFreeFifo.Pop | Source/LockFreeFifo.h:34-46 | None, with nothing changed, when empty; otherwise the oldest item, which leaves the FIFO |
| LockFreeFifos.LockFreeFifo.Clear | Source/LockFreeFifo.h:48-51 | after clear nothing is stored |
| LockFreeFifos.PushAll | Source/LockFreeFifo.h:19-32 | pushing items that fit appends them all, in order |
| LockFreeFifos.PopAll | Source/LockFreeFifo.h:34-46 | popping while items are ready yields every stored item, oldest first, and empties the FIFO |
| LockFreeFifos.PushAllThenPopAll | Source/LockFreeFifo.h:19-46 | items pushed into an empty FIFO come out in the order they went in |
| Jobs.NewJob | Source/Job.h:27-28 | a new job carries its id, closures and priority, sits at position 0, and with nothing linked never aborts and sends no update |
| Jobs.NewHookJob | Source/Job.h:41 | a hook job has no closures, sits at position 0, and with nothing linked never aborts and sends no update |
| Jobs.JobLess | Source/Job.h:34-39 | operator<: a job is never less than one of lower priority, nor than a job with its own priority and position |
| Jobs.EqualPriorityOrder | Source/Job.h:36-37 | at equal priority a < b iff b was queued earlier; neither is less iff the positions agree |
| Jobs.DifferentPriorityOrder | Source/Job.h:38 | across priorities a < b iff a is Normal and b is Urgent |
| Jobs.JobLessStrictWeakOrder | Source/Job.h:34-39 | operator< is irreflexive, asymmetric and transitive, and its incomparability is transitive |
| Jobs.ShouldAbort | Source/Job.h:43 | an unlinked job never aborts; a linked one aborts exactly when the linked function reports it |
| Jobs.LinkSystem | Source/Job.h:66-72 | linkSystem installs exactly the given abort function, completion container, progress container and update sender and changes nothing else; afterwards the job aborts iff an abort function was linked and reports abort, and sends updates, to that progress container, iff a sender and a progress container were linked |
| Jobs.ExecuteUpdate | Source/Job.h:44-51 | an update is sent iff both the sender and a progress container are linked, and it triggers that container with the given progress |
| Jobs.Calls | Source/Job.h:64 | a trigger's functions become call events one for one, in order |
| Jobs.ProgressCalls | Source/Job.h:49 | a progress trigger's functions become progress calls one for one, in order, with the same value |
| Jobs.ExecuteAction | Source/Job.h:54-59 | the action phase runs this job's hook once and calls nothing but its own action closure, sending at most the 0% update |
| Jobs.ExecuteCallback | Source/Job.h:60-65 | the callback phase starts with this job's hook and then only calls its callback closure or functions its container triggers |
| Jobs.ExecuteActionOrder | Source/Job.h:54-59 | executeAction: the 0% update only if linked, then the jobAction hook, then the action closure only if set |
| Jobs.ExecuteCallbackOrder | Source/Job.h:60-65 | executeCallback: the jobCallback hook, the callback closure only if set, then exactly the linked container's trigger |
| Jobs.NewJobDefaults | Source/Job.h:27-28 | by default a job is Normal with no callback, and a hook job's callback phase is its hook alone |
| Jobs.LinkedJobAborts | Source/Job.h:43 | once linked by the scheduler, shouldAbort reports the scheduler's abort flag |
| JobSystems.LessIsStrictOrder | Source/JobSystem.h:19 | both queue comparators are strict orders, as a heap needs |
| JobSystems.TopExists | Source/JobSystem.h:40 | every non-empty queue has a top under either comparator |
| JobSystems.StampKeepsCounterInvariant | Source/JobSystem.h:108-109 | queueing a job stamped with the counter and incrementing it keeps positions distinct and below the counter |
| JobSystems.PopKeepsCounterInvariant | Source/JobSystem.h:126-127 | removing a job, and resetting the counter once the queue is empty, keeps the bookkeeping |
| JobSystems.JobOrderTop | Source/Job.h:34-39 | under operator< the top is the earliest-queued job of its priority, and a Normal top means no Urgent job waits |
| JobSystems.AddressOrderIgnoresPriority | Source/JobSystem.h:19 | under std::less<Job*> a Normal job can be popped before a waiting Urgent one, which operator< would pop first |
| JobSystems.PopSequenceAt | Source/JobSystem.h:24-29 | in a pop sequence the i-th job is a top of what the first i pops left |
| JobSystems.PopSequenceExtend | Source/JobSystem.h:28 | popping a top of what is left extends a pop sequence |
| JobSystems.JobQueue.constructor | Source/JobSystem.h:19 | the queue starts empty with the given comparator |
| JobSystems.JobQueue.IsEmpty | Source/JobSystem.h:37 | empty() iff no job is queued |
| JobSystems.JobQueue.PushJob | Source/JobSystem.h:31-34 | pushJob adds exactly that job |
| JobSystems.JobQueue.PopJob | Source/JobSystem.h:35-43 | None and no change on an empty queue; otherwise a top under the comparator, removed exactly once |
| JobSystems.JobQueue.Drain | Source/JobSystem.h:22-30 | ~JobQueue ends with the queue empty, having deleted every job, each a top of the jobs not yet deleted |
| JobSystems.DrainStep | Source/JobSystem.h:27-28 | one round of the destructor's loop moves the popped top into the deleted prefix |
| JobSystems.StampedAt | Source/JobSystem.h:108 | the i-th stamped job is the i-th input job at position counter + i, otherwise unchanged |
| JobSystems.StampedPointwise | Source/JobSystem.h:108 | a batch that agrees with the stamping position by position is the stamping |
| JobSystems.StampedKeepsCounterInvariant | Source/JobSystem.h:105-110 | queueing a whole stamped batch keeps positions distinct and below the advanced counter |
| JobSystems.StampedStep | Source/JobSystem.h:108-109 | stamping one more job keeps the bookkeeping |
| JobSystems.StampedSnoc | Source/JobSystem.h:108 | stamping one more job appends it at the next position |
| JobSystems.PrioritizeOne | Source/JobSystem.h:107-109 | one round of the prioritizing loop queues the oldest input job at the given position |
| JobSystems.QueueAll | Source/JobSystem.h:105-110 | the prioritizing loop queues every input job, in FIFO order, at consecutive positions, and empties the input FIFO |
| JobSystems.PrioritizeJobs | Source/JobSystem.h:105-110 | the queue gains exactly the stamped input batch, the counter advances by its length, and the bookkeeping is kept |
| JobSystems.RunProgressCallbacks | Source/JobSystem.h:141-142 | the progress FIFO is drained completely, in FIFO order, each closure triggering its container |
| JobSystems.RunCallback | Source/Job.h:60-65 | executeCallback against the registry produces exactly its callback phase |
| JobSystems.RunFinishedCallbacks | Source/JobSystem.h:143-144 | the finished FIFO is drained completely, in FIFO order, running each job's callback phase |
| JobSystems.Dispatch | Source/JobSystem.h:117-127 | one top job leaves the queue; the counter is 0 iff the queue became empty; under operator< the FIFO and urgency facts hold |
| JobSystems.SendUpdate | Source/JobSystem.h:92-96 | sendUpdateFn offers the progress closure, if there is one, to the progress FIFO |
| JobSystems.FinishJob | Source/JobSystem.h:121-124 | unless aborting, the finished job is offered to the finished FIFO |
| JobSystems.JobSystem.constructor | Source/JobSystem.h:60-64 | the system starts with three empty FIFOs of 2048 slots, an empty queue, an idle pool and the counter at 0 |
| JobSystems.JobSystem.Size | Source/JobSystem.h:88 | size() is the pool's thread count, fixed at construction; `Valid()` keeps the jobs handed to the pool within it |
| JobSystems.JobSystem.PushJob | Source/JobSystem.h:90-99 | pushJob links the job, runs jobSetup, then offers it to the input FIFO, dropping it when the FIFO is full |
| JobSystems.JobSystem.PrioritizeInputJobs | Source/JobSystem.h:105-110 | the first loop of processJobs on the system's own queue and counter |
| JobSystems.JobSystem.RunTopJob | Source/JobSystem.h:117-127 | with a thread free, exactly one top job joins the pool; the counter is reset iff the queue became empty |
| JobSystems.JobSystem.ProcessJobs | Source/JobSystem.h:102-130 | the pool never holds more jobs than threads; input drained and stamped; true with nothing dispatched iff the pool is full or the queue empty; otherwise exactly one top job dispatched and the counter reset iff the queue emptied |
| JobSystems.JobSystem.CompleteJob | Source/JobSystem.h:118-125 | the worker runs executeAction, then pushes the job onto the finished FIFO only when not aborting |
| JobSystems.JobSystem.Flush | Source/JobSystem.h:70-76 | flush leaves the pool idle, the finished FIFO empty and abort false |
| JobSystems.JobSystem.StopSystem | Source/JobSystem.h:80-86 | stopSystem flushes, then leaves abort set |
| JobSystems.JobSystem.TimerCallback | Source/JobSystem.h:139-145 | both FIFOs are drained completely, progress first then finished jobs, each in FIFO order |
| CallbackMaps.CallbackMap.constructor | Source/CallbackMap.h:37 | the map starts with no identifiers |
| CallbackMaps.CallbackMap.ContainerFor | Source/CallbackMap.h:24-25 | an unknown identifier gets exactly one new container; a known one keeps its own; other identifiers are untouched |
| CallbackMaps.CallbackMap.Add | Source/CallbackMap.h:22-27 | add delegates to the identifier's container, created first if unknown; other identifiers keep their containers and what they trigger |
| CallbackMaps.CallbackMap.Trigger | Source/CallbackMap.h:28-35 | an unknown identifier triggers nothing; a known one triggers exactly its container |

## Left out

- Threads, timers and locks are not modelled: the scheduler thread's `run` loop with `wait(2)`, `startThread`, `startTimer(2)`, `stopTimer`, `stopThread(1000)`, `juce::CriticalSection` and the atomic abort flag. The model is sequential, so ABA-safety under real concurrency is not captured.
- `juce::ThreadPool` internals are a foreign library. The pool is the sequence `running`; `addJob` appends to it, a worker finishing is `CompleteJob`, and `removeAllJobs(true, 1000)` empties it.
- JobSystems.JobSystem.Flush: the model drops every job in the pool without running it (`running := []`). `removeAllJobs(true, 1000)` deletes only the jobs that have not started. It asks running jobs to exit and waits at most 1000 ms, and a running job still executes its action. So the model does not capture three things:
  - the action and 0% update events of a job already running when `flush` starts; its update stays in the progress FIFO, which `flush` does not clear, so its progress callbacks still fire;
  - a completion that arrives after the wait gives up: after `abort` is reset, the worker still pushes the job onto the finished FIFO, and its callback phase is delivered after the flush;
  - the false result of a timed-out wait.
- Containers never die in the model: container ids stay in the registry forever. In the source a container can be destroyed, for instance when the `unique_ptr` in a `CallbackMap` releases it. Live scopes' `containers` lists and jobs' `scopedCallbacks` then still point at it, and `~FunctionScope` calls `remove` on freed memory. The model assumes every container outlives the scopes and jobs that refer to it.
- The two container families, `ScopedFunctionContainer<void()>` for completion callbacks and `ScopedFunctionContainer<void(float)>` for progress callbacks, share one arena. The model therefore allows a job's completion container and its progress container to be the same id, or a scope to be added to a container of the other family. C++ rejects both at compile time. Function signatures are not modelled.
- `std::function` payloads are opaque `FnId`s. Their invocation is recorded as trace events; their bodies are not modelled.
- Progress values are `float`s in the source and `real`s here; only 0 is emitted by the system itself.
- `DBG` logging is not modelled; it has no effect on state.
- `SharedJobSystemPointer` is not part of this model, and neither is the unused `runningJobs` vector, the commented-out code at Source/LockFreeFifo.h:60-95, or JJS.h.
- `LockFreeFifo` models `juce::AbstractFifo` with its two cursors and one free slot. Every operation moves one item, so only the first of the two regions of `prepareToWrite`/`prepareToRead` is used. Moved-from buffer slots keep their old value rather than becoming empty.
- Callbacks have no effect on model state. A callback that creates or destroys scopes while a trigger is running is not modelled.
- JobSystems.JobQueue: the binary heap is abstracted to the multiset it holds; which of several tops `pop` returns is left open.
- JobSystems.JobSystem.ProcessJobs: `queueCounter` is a `long` in the source and an unbounded `int` here, so overflow is not modelled; the counter is reset whenever the queue empties.
- JobSystems.JobSystem.PushJob: the linked abort function and update sender are modelled as flags that are set, not as the closures themselves. `ShouldAbort` then reads the system's abort flag.
- The job runs its action at `CompleteJob`, not when it is handed to the pool; the abort check happens after the action, as in the source.
- `JobSystem` takes `numThreads` as a `nat`; `int num_concurrent_jobs` is not checked for negative values.

## Findings

| source | as written | input that shows it | evidently intended | confidence | as-written member | corrected member |
|---|---|---|---|---|---|---|
| Source/JobSystem.h:19 | `JobQueue` is a `std::priority_queue<Job*>` with the default `std::less<Job*>`. It orders the heap by the jobs' addresses and never uses `Job::operator<` | a Normal job at the higher address (position 0) and an Urgent job at the lower address (position 1): `popJob` returns the Normal job | the comparator of Source/Job.h:34-39, on the pointed-to jobs: Urgent first, then the earliest queued | not executed | JobSystems.AddressOrderIgnoresPriority | JobSystems.JobOrderTop |

`JobQueue` and `JobSystem` take the comparator as a parameter. `ByAddress` is the code as written, with ids
standing for addresses. `ByJobOrder` is the intended order. The pop-greatest properties hold for both. The
FIFO and urgency properties (`JobOrderTop`, and the `ByJobOrder` clauses of `Dispatch`, `RunTopJob` and
`ProcessJobs`) are proved for `ByJobOrder`.
