/**
 * JobQueue and JobSystem: the scheduler's bookkeeping as one sequential state machine.
 *
 * JobQueue is a std::priority_queue<Job*>, so its order is a comparator on Job pointers.
 * The queue is therefore parameterised by a Comparator: ByAddress is what the declaration
 * uses (std::less<Job*>, the jobs' addresses, here their ids), ByJobOrder is Job::operator<.
 * The heap itself is abstracted to the multiset it holds; popJob takes a greatest element.
 *
 * In JobSystem the worker thread pool is the sequence `running` of jobs handed to it and
 * not yet completed (its getNumJobs is |running|); a worker finishing a job is the separate
 * method CompleteJob. `trace` records, in order, every hook and function the system runs.
 */
module JobSystems {
  import opened Wrappers
  import opened ScopeTrackedFunctions
  import opened LockFreeFifos
  import opened Jobs

  datatype Comparator = ByAddress | ByJobOrder

  /** The queue's "less than": the job that compares less is popped later. */
  predicate Less(order: Comparator, a: Job, b: Job) {
    match order
    case ByAddress => a.id < b.id
    case ByJobOrder => JobLess(a, b)
  }

  lemma LessIsStrictOrder(order: Comparator, a: Job, b: Job, c: Job)
    ensures !Less(order, a, a)
    ensures Less(order, a, b) && Less(order, b, c) ==> Less(order, a, c)
  {
    JobLessStrictWeakOrder(a, b, c);
  }

  /** `j` is a top of `m`: no element of `m` compares greater. */
  predicate IsTop(j: Job, m: multiset<Job>, order: Comparator) {
    j in m && forall k :: k in m ==> !Less(order, j, k)
  }

  /** Every non-empty queue has a top, whichever comparator orders it. */
  lemma {:induction false} TopExists(m: multiset<Job>, order: Comparator)
    requires m != multiset{}
    ensures exists j :: IsTop(j, m, order)
    decreases |m|
  {
    var x :| x in m;
    var rest := m - multiset{x};
    assert m == rest + multiset{x};
    LessIsStrictOrder(order, x, x, x);
    if rest == multiset{} {
      assert m == multiset{x};
      assert IsTop(x, m, order);
    } else {
      TopExists(rest, order);
      var y :| IsTop(y, rest, order);
      if Less(order, y, x) {
        forall k | k in m ensures !Less(order, x, k) {
          if k != x {
            assert k in rest;
            LessIsStrictOrder(order, y, x, k);
          }
        }
        assert IsTop(x, m, order);
      } else {
        forall k | k in m ensures !Less(order, y, k) {
          if k != x {
            assert k in rest;
          }
        }
        assert IsTop(y, m, order);
      }
    }
  }

  /** Distinct jobs in the queue carry distinct positions. */
  ghost predicate DistinctPositions(m: multiset<Job>) {
    forall j, k :: j in m && k in m && j != k ==> j.queuePosition != k.queuePosition
  }

  /**
   * The queue's bookkeeping of positions: the counter is never negative and is 0 exactly when
   * the queue is empty, every queued position is below it, and no two queued jobs share one.
   */
  ghost predicate CounterInvariant(m: multiset<Job>, counter: int) {
    && 0 <= counter
    && (counter == 0 <==> m == multiset{})
    && (forall j :: j in m ==> 0 <= j.queuePosition < counter)
    && DistinctPositions(m)
  }

  /** Queueing a job stamped with the counter, then incrementing it, keeps the bookkeeping. */
  lemma StampKeepsCounterInvariant(m: multiset<Job>, counter: int, j: Job)
    requires CounterInvariant(m, counter) && j.queuePosition == counter
    ensures CounterInvariant(m + multiset{j}, counter + 1)
  {
    var m' := m + multiset{j};
    forall x, y | x in m' && y in m' && x != y
      ensures x.queuePosition != y.queuePosition
    {
      if x != j && y != j {
        assert x in m && y in m;
      } else if x == j {
        assert y in m;
      } else {
        assert x in m;
      }
    }
  }

  /** Removing a job, and resetting the counter once the queue is empty, keeps the bookkeeping. */
  lemma PopKeepsCounterInvariant(m: multiset<Job>, counter: int, j: Job)
    requires CounterInvariant(m + multiset{j}, counter)
    ensures CounterInvariant(m, if m == multiset{} then 0 else counter)
  {
    assert forall x :: x in m ==> x in m + multiset{j};
  }

  /**
   * Under Job::operator< the top is the earliest-queued job of the highest priority present:
   * no Normal job leaves while an Urgent one waits, and equal priorities leave in queue order.
   */
  lemma JobOrderTop(d: Job, m: multiset<Job>)
    requires IsTop(d, m, ByJobOrder) && DistinctPositions(m)
    ensures forall k :: k in m && k != d && k.priority == d.priority ==> d.queuePosition < k.queuePosition
    ensures d.priority == Normal ==> forall k :: k in m ==> k.priority == Normal
  {
    forall k | k in m && k != d && k.priority == d.priority
      ensures d.queuePosition < k.queuePosition
    {
      EqualPriorityOrder(d, k);
    }
  }

  /** Two jobs showing that address order can pop a Normal job ahead of an Urgent one. */
  function AddressOrderWitness(): multiset<Job> {
    multiset{Job(2, None, None, Normal, 0, true, true, None, None),
             Job(1, None, None, Urgent, 1, true, true, None, None)}
  }

  /**
   * The queue as declared (std::less<Job*>) pops the Normal job first, although
   * Job::operator< ranks the Urgent job above it.
   */
  lemma AddressOrderIgnoresPriority()
    ensures var normal := Job(2, None, None, Normal, 0, true, true, None, None);
            var urgent := Job(1, None, None, Urgent, 1, true, true, None, None);
            && IsTop(normal, AddressOrderWitness(), ByAddress)
            && !IsTop(urgent, AddressOrderWitness(), ByAddress)
            && JobLess(normal, urgent)
            && IsTop(urgent, AddressOrderWitness(), ByJobOrder)
  {
    var normal := Job(2, None, None, Normal, 0, true, true, None, None);
    var urgent := Job(1, None, None, Urgent, 1, true, true, None, None);
    var m := AddressOrderWitness();
    forall k | k in m ensures !Less(ByAddress, normal, k) {
      assert k == normal || k == urgent;
    }
    forall k | k in m ensures !Less(ByJobOrder, urgent, k) {
      assert k == normal || k == urgent;
    }
  }

  /**
   * `ds` is a sequence of successive popJob results from a queue holding `m`:
   * each element is a top of what the earlier ones left behind.
   */
  ghost predicate PopSequence(ds: seq<Job>, m: multiset<Job>, order: Comparator) {
    if ds == [] then true
    else
      var init := ds[..|ds| - 1];
      PopSequence(init, m, order) && IsTop(ds[|ds| - 1], m - multiset(init), order)
  }

  /** Pointwise reading of PopSequence: the i-th element is a top of what the first i left. */
  lemma {:induction false} PopSequenceAt(ds: seq<Job>, m: multiset<Job>, order: Comparator, i: nat)
    requires PopSequence(ds, m, order) && i < |ds|
    ensures IsTop(ds[i], m - multiset(ds[..i]), order)
    decreases |ds|
  {
    var init := ds[..|ds| - 1];
    if i < |ds| - 1 {
      PopSequenceAt(init, m, order, i);
      assert init[..i] == ds[..i];
    }
  }

  /** A top of what is left extends a pop sequence. */
  lemma PopSequenceExtend(ds: seq<Job>, m: multiset<Job>, order: Comparator, x: Job)
    requires PopSequence(ds, m, order) && IsTop(x, m - multiset(ds), order)
    ensures PopSequence(ds + [x], m, order)
  {
    assert (ds + [x])[..|ds|] == ds;
  }

  class JobQueue {
    const order: Comparator
    var jobs: multiset<Job>

    constructor (order: Comparator)
      ensures this.order == order && jobs == multiset{}
    {
      this.order := order;
      jobs := multiset{};
    }

    function IsEmpty(): (r: bool)
      reads this
      ensures r <==> jobs == multiset{}
    {
      |jobs| == 0
    }

    /** pushJob: the queue takes ownership of the job. */
    method PushJob(job: Job)
      modifies this
      ensures jobs == old(jobs) + multiset{job}
    {
      jobs := jobs + multiset{job};
    }

    /** popJob: None on an empty queue, otherwise a top job, which leaves the queue. */
    method PopJob() returns (r: Option<Job>)
      modifies this
      ensures old(jobs) == multiset{} ==> r == None && jobs == old(jobs)
      ensures old(jobs) != multiset{} ==>
                r.Some? && IsTop(r.value, old(jobs), order) && old(jobs) == jobs + multiset{r.value}
    {
      if IsEmpty() {
        return None;
      }
      TopExists(jobs, order);
      var top :| IsTop(top, jobs, order);
      jobs := jobs - multiset{top};
      r := Some(top);
    }

    /**
     * ~JobQueue: pops and deletes until popJob yields nothing; `deleted` lists the jobs in the
     * order deleted, each a top of the jobs not yet deleted.
     */
    method Drain() returns (deleted: seq<Job>)
      modifies this
      ensures jobs == multiset{}
      ensures multiset(deleted) == old(jobs)
      ensures PopSequence(deleted, old(jobs), order)
    {
      deleted := [];
      var job := PopJob();
      ghost var pending := old(jobs);
      while job.Some?
        invariant old(jobs) == multiset(deleted) + pending
        invariant job.Some? ==> pending == jobs + multiset{job.value} && IsTop(job.value, pending, order)
        invariant job.None? ==> jobs == multiset{} && pending == multiset{}
        invariant PopSequence(deleted, old(jobs), order)
        decreases |pending|
      {
        DrainStep(deleted, pending, old(jobs), jobs, job.value, order);
        deleted := deleted + [job.value];
        pending := jobs;
        job := PopJob();
      }
    }
  }

  /** One round of the ~JobQueue loop: the popped top joins the deleted prefix. */
  lemma DrainStep(deleted: seq<Job>, pending: multiset<Job>, m: multiset<Job>, rest: multiset<Job>, x: Job, order: Comparator)
    requires m == multiset(deleted) + pending && pending == rest + multiset{x}
    requires IsTop(x, pending, order) && PopSequence(deleted, m, order)
    ensures m == multiset(deleted + [x]) + rest
    ensures PopSequence(deleted + [x], m, order)
  {
    assert pending == m - multiset(deleted);
    PopSequenceExtend(deleted, m, order, x);
  }

  /** The jobs of `js` stamped with consecutive positions from `counter` on. */
  function Stamped(js: seq<Job>, counter: int): (r: seq<Job>)
    ensures |r| == |js|
  {
    if js == [] then [] else Stamped(js[..|js| - 1], counter) + [js[|js| - 1].(queuePosition := counter + |js| - 1)]
  }

  /** The i-th stamped job is the i-th job with position counter + i; nothing else changes. */
  lemma {:induction false} StampedAt(js: seq<Job>, counter: int, i: nat)
    requires i < |js|
    ensures Stamped(js, counter)[i] == js[i].(queuePosition := counter + i)
    decreases |js|
  {
    if i < |js| - 1 {
      StampedAt(js[..|js| - 1], counter, i);
    }
  }

  /** A sequence that agrees with the stamping position by position is the stamping. */
  lemma StampedPointwise(js: seq<Job>, counter: int, r: seq<Job>)
    requires |r| == |js| && forall i :: 0 <= i < |js| ==> r[i] == js[i].(queuePosition := counter + i)
    ensures r == Stamped(js, counter)
  {
    forall i | 0 <= i < |js| ensures r[i] == Stamped(js, counter)[i] {
      StampedAt(js, counter, i);
    }
  }

  /** Queueing a whole batch with consecutive positions keeps the bookkeeping. */
  lemma {:induction false} StampedKeepsCounterInvariant(m: multiset<Job>, counter: int, js: seq<Job>)
    requires CounterInvariant(m, counter)
    ensures CounterInvariant(m + multiset(Stamped(js, counter)), counter + |js|)
    decreases |js|
  {
    if js != [] {
      var init := js[..|js| - 1];
      assert js == init + [js[|js| - 1]];
      StampedKeepsCounterInvariant(m, counter, init);
      StampedStep(m, counter, init, js[|js| - 1]);
    }
  }

  lemma StampedStep(m: multiset<Job>, counter: int, init: seq<Job>, x: Job)
    requires CounterInvariant(m + multiset(Stamped(init, counter)), counter + |init|)
    ensures CounterInvariant(m + multiset(Stamped(init + [x], counter)), counter + |init| + 1)
  {
    var last := x.(queuePosition := counter + |init|);
    var before := m + multiset(Stamped(init, counter));
    StampedSnoc(init, counter, x);
    assert m + multiset(Stamped(init + [x], counter)) == before + multiset{last};
    StampKeepsCounterInvariant(before, counter + |init|, last);
  }

  /** Stamping one more job appends it with the next position. */
  lemma StampedSnoc(init: seq<Job>, counter: int, x: Job)
    ensures Stamped(init + [x], counter) == Stamped(init, counter) + [x.(queuePosition := counter + |init|)]
  {
    assert (init + [x])[..|init|] == init;
  }

  /** The events the delivery tick produces for the pending progress closures. */
  function DeliverProgress(ts: seq<ProgressTask>, a: Arena): seq<Event>
    requires Consistent(a)
  {
    if ts == [] then []
    else DeliverProgress(ts[..|ts| - 1], a)
         + ProgressCalls(Triggered(a, ts[|ts| - 1].container), ts[|ts| - 1].progress)
  }

  /** The events the delivery tick produces for the finished jobs. */
  function DeliverFinished(js: seq<Job>, a: Arena): seq<Event>
    requires Consistent(a)
  {
    if js == [] then [] else DeliverFinished(js[..|js| - 1], a) + ExecuteCallback(js[|js| - 1], a)
  }

  /** One round of the prioritizing loop: the oldest input job, stamped with `position`, is queued. */
  method PrioritizeOne(input: LockFreeFifo<Job>, queue: JobQueue, position: int) returns (job: Job)
    requires input.Valid() && input.Contents != []
    modifies input, queue
    ensures input.Valid() && input.Contents == old(input.Contents)[1..]
    ensures job == old(input.Contents)[0].(queuePosition := position)
    ensures queue.jobs == old(queue.jobs) + multiset{job}
  {
    var popped := input.Pop();
    job := popped.value.(queuePosition := position);
    queue.PushJob(job);
  }

  /** The prioritizing loop: every input job, in FIFO order, queued with the next position from `counter` on. */
  method QueueAll(input: LockFreeFifo<Job>, queue: JobQueue, counter: int) returns (added: seq<Job>)
    requires input.Valid()
    modifies input, queue
    ensures input.Valid() && input.Contents == []
    ensures |added| == |old(input.Contents)|
    ensures forall i :: 0 <= i < |added| ==> added[i] == old(input.Contents)[i].(queuePosition := counter + i)
    ensures queue.jobs == old(queue.jobs) + multiset(added)
  {
    ghost var jobs := input.Contents;
    added := [];
    var next := counter;
    while input.GetNumItems() > 0
      invariant input.Valid()
      invariant |added| <= |jobs| && input.Contents == jobs[|added|..]
      invariant next == counter + |added|
      invariant forall i :: 0 <= i < |added| ==> added[i] == jobs[i].(queuePosition := counter + i)
      invariant queue.jobs == old(queue.jobs) + multiset(added)
      decreases |input.Contents|
    {
      var job := PrioritizeOne(input, queue, next);
      next := next + 1;
      added := added + [job];
    }
  }

  /** processJobs' first loop, with the queue's bookkeeping: positions stay distinct and below the counter. */
  method PrioritizeJobs(input: LockFreeFifo<Job>, queue: JobQueue, counter: int) returns (next: int)
    requires input.Valid() && CounterInvariant(queue.jobs, counter)
    modifies input, queue
    ensures input.Valid() && input.Contents == []
    ensures queue.jobs == old(queue.jobs) + multiset(Stamped(old(input.Contents), counter))
    ensures next == counter + |old(input.Contents)|
    ensures CounterInvariant(queue.jobs, next)
  {
    var added := QueueAll(input, queue, counter);
    StampedPointwise(old(input.Contents), counter, added);
    StampedKeepsCounterInvariant(old(queue.jobs), counter, old(input.Contents));
    next := counter + |added|;
  }

  /** The first loop of timerCallback: every pending progress closure runs, oldest first. */
  method RunProgressCallbacks(fifo: LockFreeFifo<ProgressTask>, registry: Registry) returns (events: seq<Event>)
    requires fifo.Valid() && registry.Valid()
    modifies fifo
    ensures fifo.Valid() && fifo.Contents == []
    ensures events == DeliverProgress(old(fifo.Contents), registry.State())
  {
    ghost var a := registry.State();
    ghost var tasks := fifo.Contents;
    ghost var n := 0;
    events := [];
    while fifo.GetNumItems() > 0
      invariant fifo.Valid()
      invariant 0 <= n <= |tasks|
      invariant fifo.Contents == tasks[n..]
      invariant Consistent(a)
      invariant events == DeliverProgress(tasks[..n], a)
      decreases |fifo.Contents|
    {
      var task := fifo.Pop();
      var fs := registry.TriggerFunctions(task.value.container);
      assert tasks[..n + 1][..n] == tasks[..n];
      events := events + ProgressCalls(fs, task.value.progress);
      n := n + 1;
    }
    assert tasks[..n] == tasks;
  }

  /** job->executeCallback() on the message thread: the events its callback phase produces. */
  method RunCallback(job: Job, registry: Registry) returns (phase: seq<Event>)
    requires registry.Valid()
    ensures phase == ExecuteCallback(job, registry.State())
  {
    phase := [CallbackHook(job.id)] + ClosureCall(job.callback);
    if job.scopedCallbacks.Some? {
      var fs := registry.TriggerFunctions(job.scopedCallbacks.value);
      phase := phase + Calls(fs);
    }
  }

  /** The second loop of timerCallback: every finished job runs its callback phase, oldest first. */
  method RunFinishedCallbacks(fifo: LockFreeFifo<Job>, registry: Registry) returns (events: seq<Event>)
    requires fifo.Valid() && registry.Valid()
    modifies fifo
    ensures fifo.Valid() && fifo.Contents == []
    ensures events == DeliverFinished(old(fifo.Contents), registry.State())
  {
    ghost var a := registry.State();
    ghost var done := fifo.Contents;
    ghost var n := 0;
    events := [];
    while fifo.GetNumItems() > 0
      invariant fifo.Valid()
      invariant 0 <= n <= |done|
      invariant fifo.Contents == done[n..]
      invariant Consistent(a)
      invariant events == DeliverFinished(done[..n], a)
      decreases |fifo.Contents|
    {
      var popped := fifo.Pop();
      var phase := RunCallback(popped.value, registry);
      assert done[..n + 1][..n] == done[..n];
      events := events + phase;
      n := n + 1;
    }
    assert done[..n] == done;
  }

  /**
   * The rest of processJobs once a job can run: pop the top job and, if that emptied the
   * queue, reset the counter; returns the job and the counter.
   */
  method Dispatch(queue: JobQueue, counter: int) returns (top: Job, next: int)
    requires queue.jobs != multiset{} && CounterInvariant(queue.jobs, counter)
    modifies queue
    ensures IsTop(top, old(queue.jobs), queue.order) && old(queue.jobs) == queue.jobs + multiset{top}
    ensures next == if queue.jobs == multiset{} then 0 else counter
    ensures CounterInvariant(queue.jobs, next)
    ensures queue.order == ByJobOrder ==>
              && (forall k :: k in queue.jobs && k != top && k.priority == top.priority ==> top.queuePosition < k.queuePosition)
              && (top.priority == Normal ==> forall k :: k in queue.jobs ==> k.priority == Normal)
  {
    var popped := queue.PopJob();
    top := popped.value;
    PopKeepsCounterInvariant(queue.jobs, counter, top);
    next := counter;
    if queue.IsEmpty() {
      next := 0;
    }
    if queue.order == ByJobOrder {
      JobOrderTop(top, old(queue.jobs));
    }
  }

  /** The worker's sendUpdateFn: the progress closure, if there is one, goes into the progress FIFO. */
  method SendUpdate(fifo: LockFreeFifo<ProgressTask>, update: Option<ProgressTask>)
    requires fifo.Valid()
    modifies fifo, fifo.buffer
    ensures fifo.Valid()
    ensures fifo.Contents ==
              match update
              case None => old(fifo.Contents)
              case Some(t) => Pushed(old(fifo.Contents), t, fifo.Capacity())
  {
    if update.Some? {
      var _ := fifo.Push(update.value);
    }
  }

  /** The end of the worker lambda: unless aborted, the job goes into the finished FIFO. */
  method FinishJob(fifo: LockFreeFifo<Job>, job: Job, abort: bool)
    requires fifo.Valid()
    modifies fifo, fifo.buffer
    ensures fifo.Valid()
    ensures fifo.Contents == if abort then old(fifo.Contents) else Pushed(old(fifo.Contents), job, fifo.Capacity())
  {
    if abort {
      return;
    }
    var _ := fifo.Push(job);
  }

  const FifoSize: nat := 2048

  class JobSystem {
    const numThreads: nat
    const order: Comparator
    const inputJobs: LockFreeFifo<Job>
    const prioritizedJobs: JobQueue
    const progressCallbackFifo: LockFreeFifo<ProgressTask>
    const finishedJobs: LockFreeFifo<Job>
    var running: seq<Job>
    var queueCounter: int
    var abort: bool
    var trace: seq<Event>

    /** The positions in the queue are distinct and below the counter, which is 0 exactly when the queue is empty. */
    ghost predicate QueueCounterInvariant()
      reads this, prioritizedJobs
    {
      CounterInvariant(prioritizedJobs.jobs, queueCounter)
    }

    ghost predicate Valid()
      reads this, inputJobs, inputJobs.buffer, prioritizedJobs
      reads progressCallbackFifo, progressCallbackFifo.buffer, finishedJobs, finishedJobs.buffer
    {
      && inputJobs.Valid() && progressCallbackFifo.Valid() && finishedJobs.Valid()
      && inputJobs != finishedJobs && inputJobs.buffer != finishedJobs.buffer
      && inputJobs.size == FifoSize && progressCallbackFifo.size == FifoSize && finishedJobs.size == FifoSize
      && prioritizedJobs.order == order
      && QueueCounterInvariant()
      && |running| <= numThreads
    }

    /** JobSystem(name, num_concurrent_jobs); the thread and timer it starts are not modelled. */
    constructor (numThreads: nat, order: Comparator)
      ensures Valid() && fresh(inputJobs) && fresh(inputJobs.buffer) && fresh(prioritizedJobs)
      ensures fresh(progressCallbackFifo) && fresh(progressCallbackFifo.buffer) && fresh(finishedJobs) && fresh(finishedJobs.buffer)
      ensures this.numThreads == numThreads && this.order == order
      ensures inputJobs.Contents == [] && progressCallbackFifo.Contents == [] && finishedJobs.Contents == []
      ensures prioritizedJobs.jobs == multiset{} && running == [] && queueCounter == 0
      ensures !abort && trace == []
    {
      this.numThreads := numThreads;
      this.order := order;
      inputJobs := new LockFreeFifo<Job>(FifoSize);
      prioritizedJobs := new JobQueue(order);
      progressCallbackFifo := new LockFreeFifo<ProgressTask>(FifoSize);
      finishedJobs := new LockFreeFifo<Job>(FifoSize);
      running := [];
      queueCounter := 0;
      abort := false;
      trace := [];
    }

    /** size(): the number of worker threads; Valid() keeps the pool's jobs within it. */
    function Size(): (n: nat)
      reads this
      ensures n == numThreads
    {
      numThreads
    }

    /** pushJob: link, run jobSetup, offer to the input FIFO; when that is full the job is dropped. */
    method PushJob(job: Job, callbacks: Option<ContainerId>, progressCallbacks: Option<ContainerId>)
      requires Valid()
      modifies this`trace, inputJobs, inputJobs.buffer
      ensures Valid()
      ensures trace == old(trace) + [SetupHook(job.id)]
      ensures inputJobs.Contents ==
                Pushed(old(inputJobs.Contents), LinkSystem(job, true, callbacks, progressCallbacks, true), inputJobs.Capacity())
    {
      var linked := LinkSystem(job, true, callbacks, progressCallbacks, true);
      trace := trace + [SetupHook(linked.id)];
      var _ := inputJobs.Push(linked);
    }

    /** The first loop of processJobs, on the system's own queue and counter. */
    method PrioritizeInputJobs()
      requires Valid()
      modifies this`queueCounter, inputJobs, prioritizedJobs
      ensures Valid() && inputJobs.Contents == []
      ensures prioritizedJobs.jobs == old(prioritizedJobs.jobs) + multiset(Stamped(old(inputJobs.Contents), old(queueCounter)))
      ensures queueCounter == old(queueCounter) + |old(inputJobs.Contents)|
    {
      queueCounter := PrioritizeJobs(inputJobs, prioritizedJobs, queueCounter);
    }

    /** The dispatch step of processJobs: the top job joins the pool. */
    method RunTopJob()
      requires Valid() && prioritizedJobs.jobs != multiset{} && |running| < numThreads
      modifies this`running, this`queueCounter, prioritizedJobs
      ensures Valid()
      ensures |running| == |old(running)| + 1 && running[..|old(running)|] == old(running)
      ensures IsTop(running[|old(running)|], old(prioritizedJobs.jobs), order)
      ensures old(prioritizedJobs.jobs) == prioritizedJobs.jobs + multiset{running[|old(running)|]}
      ensures queueCounter == if prioritizedJobs.jobs == multiset{} then 0 else old(queueCounter)
      ensures order == ByJobOrder ==>
                var d := running[|old(running)|];
                && (forall k :: k in prioritizedJobs.jobs && k != d && k.priority == d.priority ==> d.queuePosition < k.queuePosition)
                && (d.priority == Normal ==> forall k :: k in prioritizedJobs.jobs ==> k.priority == Normal)
    {
      var top;
      top, queueCounter := Dispatch(prioritizedJobs, queueCounter);
      running := running + [top];
    }

    /**
     * processJobs: move every input job into the priority queue with consecutive positions,
     * then, unless the pool is full or the queue empty (the result is then true), hand
     * exactly one top job to the pool and reset the counter if the queue became empty.
     */
    method ProcessJobs() returns (idle: bool)
      requires Valid()
      modifies this`running, this`queueCounter, inputJobs, prioritizedJobs
      ensures Valid()
      ensures inputJobs.Contents == []
      ensures var moved := old(prioritizedJobs.jobs) + multiset(Stamped(old(inputJobs.Contents), old(queueCounter)));
              && (idle <==> |old(running)| >= numThreads || moved == multiset{})
              && (idle ==> && running == old(running)
                           && prioritizedJobs.jobs == moved
                           && queueCounter == old(queueCounter) + |old(inputJobs.Contents)|)
              && (!idle ==> && |running| == |old(running)| + 1
                            && running[..|old(running)|] == old(running)
                            && IsTop(running[|old(running)|], moved, order)
                            && moved == prioritizedJobs.jobs + multiset{running[|old(running)|]}
                            && queueCounter == (if prioritizedJobs.jobs == multiset{} then 0
                                                else old(queueCounter) + |old(inputJobs.Contents)|))
      ensures !idle && order == ByJobOrder ==>
                var d := running[|running| - 1];
                && (forall k :: k in prioritizedJobs.jobs && k != d && k.priority == d.priority ==> d.queuePosition < k.queuePosition)
                && (d.priority == Normal ==> forall k :: k in prioritizedJobs.jobs ==> k.priority == Normal)
    {
      // every input job enters the queue
      PrioritizeInputJobs();
      ghost var moved := prioritizedJobs.jobs;  // the merged queue the postcondition speaks of
      // nothing to do while every thread is busy or nothing is queued
      if |running| >= numThreads || prioritizedJobs.IsEmpty() {
        return true;
      }
      // otherwise the top job goes to the pool
      RunTopJob();
      return false;
    }

    /**
     * A worker finishing the k-th job the pool holds: executeAction (whose 0% update is
     * pushed to the progress FIFO), then, unless aborting, the job goes to the finished FIFO.
     * Both pushes ignore a full FIFO.
     */
    method CompleteJob(k: nat)
      requires Valid() && k < |running|
      modifies this`running, this`trace, progressCallbackFifo, progressCallbackFifo.buffer, finishedJobs, finishedJobs.buffer
      ensures Valid()
      ensures running == old(running[..k] + running[k + 1..])
      ensures trace == old(trace) + ExecuteAction(old(running[k]))
      ensures progressCallbackFifo.Contents ==
                match ExecuteUpdate(old(running[k]), 0.0)
                case None => old(progressCallbackFifo.Contents)
                case Some(t) => Pushed(old(progressCallbackFifo.Contents), t, progressCallbackFifo.Capacity())
      ensures finishedJobs.Contents ==
                if abort then old(finishedJobs.Contents)
                else Pushed(old(finishedJobs.Contents), old(running[k]), finishedJobs.Capacity())
    {
      var job := running[k];
      running := running[..k] + running[k + 1..];
      // the action phase
      SendUpdate(progressCallbackFifo, ExecuteUpdate(job, 0.0));
      trace := trace + ExecuteAction(job);
      FinishJob(finishedJobs, job, abort);
    }

    /** flush: abort, empty the pool, clear the finished FIFO, stop aborting. */
    method Flush()
      requires Valid()
      modifies this`abort, this`running, finishedJobs
      ensures Valid()
      ensures !abort && running == [] && finishedJobs.Contents == []
    {
      abort := true;
      // the pool lets go of every job it holds
      running := [];
      finishedJobs.Clear();
      abort := false;
    }

    /** stopSystem: flush, then abort for good. */
    method StopSystem()
      requires Valid()
      modifies this`abort, this`running, finishedJobs
      ensures Valid()
      ensures abort && running == [] && finishedJobs.Contents == []
    {
      Flush();
      abort := true;
    }

    /**
     * timerCallback: run every pending progress closure, then the callback phase of every
     * finished job, each FIFO drained in FIFO order until empty.
     */
    method TimerCallback(registry: Registry)
      requires Valid() && registry.Valid()
      modifies this`trace, progressCallbackFifo, finishedJobs
      ensures Valid()
      ensures progressCallbackFifo.Contents == [] && finishedJobs.Contents == []
      ensures trace == old(trace) + DeliverProgress(old(progressCallbackFifo.Contents), registry.State())
                                   + DeliverFinished(old(finishedJobs.Contents), registry.State())
    {
      var progressEvents := RunProgressCallbacks(progressCallbackFifo, registry);
      trace := trace + progressEvents;
      var callbackEvents := RunFinishedCallbacks(finishedJobs, registry);
      trace := trace + callbackEvents;
    }
  }
}
