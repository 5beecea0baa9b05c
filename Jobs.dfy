/**
 * Job: a unit of work with an action phase, a callback phase, a priority and a queue position.
 *
 * A Job is owned by exactly one unique_ptr or shared_ptr at a time, so it is modelled as a
 * value; its object identity (which std::less<Job*> compares) is the explicit `id`.
 * std::function members are opaque ids, `None` standing for an empty std::function.
 * The virtual hooks jobSetup, jobAction and jobCallback and every function call are
 * recorded as events, so an execution phase is the sequence of events it produces.
 */
module Jobs {
  import opened Wrappers
  import opened ScopeTrackedFunctions

  type JobId = nat

  /** Job::Priority; the enumerators are 0 and 1 and compare as integers. */
  datatype Priority = Normal | Urgent

  function PriorityValue(p: Priority): nat {
    match p
    case Normal => 0
    case Urgent => 1
  }

  /** Progress values are floats in the source; 0 is the only one the system emits itself. */
  type Progress = real

  /** The closure executeUpdate hands to sendUpdateFn: trigger `container` with `progress`. */
  datatype ProgressTask = ProgressTask(container: ContainerId, progress: Progress)

  datatype Job = Job(
    id: JobId,
    action: Option<FnId>,
    callback: Option<FnId>,
    priority: Priority,
    queuePosition: int,
    abortLinked: bool,                            // shouldAbortFn is set
    updateLinked: bool,                           // sendUpdateFn is set
    scopedCallbacks: Option<ContainerId>,         // nullptr is None
    scopedProgressCallbacks: Option<ContainerId>)

  datatype Event =
    | SetupHook(job: JobId)
    | ActionHook(job: JobId)
    | CallbackHook(job: JobId)
    | UpdateSent(task: ProgressTask)
    | Call(fn: FnId)
    | ProgressCall(fn: FnId, progress: Progress)

  /** Job(job_action, job_callback = {}, job_priority = Normal): position 0 and nothing linked yet. */
  function NewJob(id: JobId, action: Option<FnId>, callback: Option<FnId> := None, priority: Priority := Normal): (r: Job)
    ensures r.id == id && r.action == action && r.callback == callback && r.priority == priority
    ensures r.queuePosition == 0 && r.scopedCallbacks == None
    ensures forall abort :: !ShouldAbort(r, abort)
    ensures forall p :: ExecuteUpdate(r, p) == None
  {
    Job(id, action, callback, priority, 0, false, false, None, None)
  }

  /** The protected Job(job_priority = Normal) for jobs whose work is in the hooks: no closures, nothing linked. */
  function NewHookJob(id: JobId, priority: Priority := Normal): (r: Job)
    ensures r.id == id && r.priority == priority && r.queuePosition == 0
    ensures r.action == None && r.callback == None && r.scopedCallbacks == None
    ensures forall abort :: !ShouldAbort(r, abort)
    ensures forall p :: ExecuteUpdate(r, p) == None
  {
    Job(id, None, None, priority, 0, false, false, None, None)
  }

  /**
   * Job::operator<: "less" means "dispatched later". A job is never less than one of lower
   * priority, and never less than a job with its own priority and position.
   */
  predicate JobLess(a: Job, b: Job): (r: bool)
    ensures r ==> PriorityValue(a.priority) <= PriorityValue(b.priority)
    ensures r ==> a.priority != b.priority || a.queuePosition != b.queuePosition
  {
    if a.priority == b.priority then a.queuePosition > b.queuePosition
    else PriorityValue(a.priority) < PriorityValue(b.priority)
  }

  /** Among equal priorities the job queued earlier is the greater one. */
  lemma EqualPriorityOrder(a: Job, b: Job)
    requires a.priority == b.priority
    ensures JobLess(a, b) <==> b.queuePosition < a.queuePosition
    ensures !JobLess(a, b) && !JobLess(b, a) <==> a.queuePosition == b.queuePosition
  {
  }

  /** Across priorities an Urgent job is greater than a Normal one, whatever their positions. */
  lemma DifferentPriorityOrder(a: Job, b: Job)
    requires a.priority != b.priority
    ensures JobLess(a, b) <==> a.priority == Normal && b.priority == Urgent
  {
  }

  /** operator< is a strict weak order on (priority, queuePosition), as a heap requires. */
  lemma JobLessStrictWeakOrder(a: Job, b: Job, c: Job)
    ensures !JobLess(a, a)
    ensures JobLess(a, b) ==> !JobLess(b, a)
    ensures JobLess(a, b) && JobLess(b, c) ==> JobLess(a, c)
    ensures !JobLess(a, b) && !JobLess(b, a) && !JobLess(b, c) && !JobLess(c, b) ==> !JobLess(a, c) && !JobLess(c, a)
  {
  }

  /** shouldAbort: false when no abort function is linked, else what the linked function reports. */
  function ShouldAbort(j: Job, systemAbort: bool): (r: bool)
    ensures !j.abortLinked ==> !r
    ensures j.abortLinked ==> r == systemAbort
  {
    j.abortLinked && systemAbort
  }

  /** linkSystem: installs the four capabilities; nothing else about the job changes. */
  function LinkSystem(j: Job, abortFn: bool, callbacks: Option<ContainerId>, progressCallbacks: Option<ContainerId>, sendUpdateFn: bool): (r: Job)
    ensures r.id == j.id && r.action == j.action && r.callback == j.callback
    ensures r.priority == j.priority && r.queuePosition == j.queuePosition
    ensures r.scopedCallbacks == callbacks && r.scopedProgressCallbacks == progressCallbacks
    ensures r.abortLinked == abortFn && r.updateLinked == sendUpdateFn
    ensures forall abort :: ShouldAbort(r, abort) == (abortFn && abort)
    ensures forall p :: ExecuteUpdate(r, p).Some? <==> sendUpdateFn && progressCallbacks.Some?
  {
    j.(abortLinked := abortFn, updateLinked := sendUpdateFn,
       scopedCallbacks := callbacks, scopedProgressCallbacks := progressCallbacks)
  }

  /** executeUpdate: the progress closure to send, if both the sender and a progress container are linked. */
  function ExecuteUpdate(j: Job, progress: Progress): (r: Option<ProgressTask>)
    ensures r.Some? <==> j.updateLinked && j.scopedProgressCallbacks.Some?
    ensures r.Some? ==> r.value.container == j.scopedProgressCallbacks.value && r.value.progress == progress
  {
    if j.updateLinked && j.scopedProgressCallbacks.Some? then
      Some(ProgressTask(j.scopedProgressCallbacks.value, progress))
    else None
  }

  /** `if (closure) closure();` */
  function ClosureCall(closure: Option<FnId>): seq<Event> {
    match closure
    case None => []
    case Some(f) => [Call(f)]
  }

  function Calls(fs: seq<FnId>): (r: seq<Event>)
    ensures |r| == |fs| && forall i :: 0 <= i < |fs| ==> r[i] == Call(fs[i])
  {
    if fs == [] then [] else Calls(fs[..|fs| - 1]) + [Call(fs[|fs| - 1])]
  }

  function ProgressCalls(fs: seq<FnId>, progress: Progress): (r: seq<Event>)
    ensures |r| == |fs| && forall i :: 0 <= i < |fs| ==> r[i] == ProgressCall(fs[i], progress)
  {
    if fs == [] then [] else ProgressCalls(fs[..|fs| - 1], progress) + [ProgressCall(fs[|fs| - 1], progress)]
  }

  function UpdateEvents(u: Option<ProgressTask>): seq<Event> {
    match u
    case None => []
    case Some(t) => [UpdateSent(t)]
  }

  /**
   * executeAction: the 0% update, then the jobAction hook, then the action closure. The phase
   * runs this job's hook once and calls nothing but its own action closure.
   */
  function ExecuteAction(j: Job): (r: seq<Event>)
    ensures 1 <= |r| <= 3 && ActionHook(j.id) in r
    ensures forall e :: e in r ==> e == ActionHook(j.id) || (e.UpdateSent? && e.task.progress == 0.0) || (e.Call? && j.action == Some(e.fn))
  {
    UpdateEvents(ExecuteUpdate(j, 0.0)) + [ActionHook(j.id)] + ClosureCall(j.action)
  }

  /**
   * executeCallback: the jobCallback hook, the callback closure, then the linked container's
   * trigger. After its own hook the phase only calls the callback closure or a function the
   * linked container triggers.
   */
  function ExecuteCallback(j: Job, a: Arena): (r: seq<Event>)
    requires Consistent(a)
    ensures |r| >= 1 && r[0] == CallbackHook(j.id)
    ensures forall e :: e in r[1..] ==>
              e.Call? && (Some(e.fn) == j.callback || (j.scopedCallbacks.Some? && e.fn in Triggered(a, j.scopedCallbacks.value)))
  {
    [CallbackHook(j.id)] + ClosureCall(j.callback)
    + (match j.scopedCallbacks
       case None => []
       case Some(c) => Calls(Triggered(a, c)))
  }

  /** The action phase: the update comes first exactly when linked, the hook always runs, the closure last. */
  lemma ExecuteActionOrder(j: Job)
    ensures var r := ExecuteAction(j);
            && |r| == (if ExecuteUpdate(j, 0.0).Some? then 1 else 0) + 1 + (if j.action.Some? then 1 else 0)
            && (r[0].UpdateSent? <==> j.updateLinked && j.scopedProgressCallbacks.Some?)
            && (r[0].UpdateSent? ==> r[0].task == ProgressTask(j.scopedProgressCallbacks.value, 0.0) && r[1] == ActionHook(j.id))
            && (!r[0].UpdateSent? ==> r[0] == ActionHook(j.id))
            && (j.action.Some? ==> r[|r| - 1] == Call(j.action.value))
            && (j.action.None? ==> r[|r| - 1] == ActionHook(j.id))
  {
  }

  /** The callback phase: the hook first, then the closure, then exactly the functions the container triggers. */
  lemma ExecuteCallbackOrder(j: Job, a: Arena)
    requires Consistent(a)
    ensures var r := ExecuteCallback(j, a);
            var k := if j.callback.Some? then 2 else 1;
            && |r| >= k
            && r[0] == CallbackHook(j.id)
            && (j.callback.Some? ==> r[1] == Call(j.callback.value))
            && (j.scopedCallbacks.None? ==> |r| == k)
            && (j.scopedCallbacks.Some? ==>
                  |r| == k + |Triggered(a, j.scopedCallbacks.value)|
                  && forall i :: k <= i < |r| ==> r[i] == Call(Triggered(a, j.scopedCallbacks.value)[i - k]))
  {
  }

  /**
   * The default arguments: a job is Normal with no callback unless told otherwise, and a
   * hook job's callback phase is its jobCallback hook alone.
   */
  lemma NewJobDefaults(id: JobId, action: Option<FnId>)
    ensures NewJob(id, action).priority == Normal && NewJob(id, action).callback == None
    ensures NewHookJob(id).priority == Normal
    ensures ExecuteCallback(NewHookJob(id), Empty()) == [CallbackHook(id)]
  {
  }

  /** Once linked by the scheduler, shouldAbort reports the scheduler's abort flag. */
  lemma LinkedJobAborts(j: Job, callbacks: Option<ContainerId>, progressCallbacks: Option<ContainerId>, abort: bool)
    ensures ShouldAbort(LinkSystem(j, true, callbacks, progressCallbacks, true), abort) == abort
    ensures ExecuteUpdate(LinkSystem(j, true, callbacks, progressCallbacks, true), 0.0).Some? <==> progressCallbacks.Some?
  {
  }
}
