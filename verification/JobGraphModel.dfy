/**
 The job-graph scheduler as a transition system over values.

 A job is named by its position in the graph's overall order, so a dependency always has a
 smaller number than its dependant.  State changes are immediate; the scheduler hears of them
 through events, at most one pending event per job.  One step is one turn of the event loop.
 */
module JobGraphModel {

  datatype JobState = NotStarted | Running | SuccessExited | ErrorExited

  /** What the scheduler can see of a job, and how often its `_execute` was entered. */
  datatype JobStatus = JobStatus(
    state: JobState,
    event: bool,       // a state event is scheduled and not delivered
    executing: bool,   // `_execute` was entered and has not returned
    executions: nat)   // how many times `_execute` was entered

  /** Life of the starter: before, during and after the start-up of the graph. */
  datatype Phase = Pre | Run | Post

  /** The starter's deferred promise. */
  datatype Promise = Pending | Fulfilled | Rejected {
    function Resolve(): Promise { if Pending? then Fulfilled else this }
    function Reject(): Promise { if Pending? then Rejected else this }
  }

  /** Progress of the caller's `startup()`: after a rejection it joins the nodes one by one. */
  datatype Startup = NotCalled | Awaiting | Joining(next: nat) | WaitingFor(at: nat) | Resolved | Threw

  /**
   `deps[i]` are all dependencies of job `i`, direct and indirect; `nodes` lists the jobs in the
   order in which they were registered.
   */
  datatype Graph = Graph(deps: seq<set<nat>>, nodes: seq<nat>, concurrency: int) {
    ghost predicate Valid() {
      && (forall i, d :: 0 <= i < |deps| && d in deps[i] ==> d < i)
      && (forall k :: 0 <= k < |nodes| ==> nodes[k] < |deps|)
      && (forall i :: 0 <= i < |deps| ==> i in nodes)
    }
  }

  datatype System = System(
    jobs: seq<JobStatus>,
    working: set<nat>,
    phase: Phase,
    promise: Promise,
    startup: Startup)

  predicate IsStarted(job: JobStatus) { job.state != NotStarted }

  predicate IsBlocking(job: JobStatus) { job.state != SuccessExited }

  predicate IsStopped(job: JobStatus) { job.state == SuccessExited || job.state == ErrorExited }

  predicate IsFatalError(job: JobStatus) { job.state == ErrorExited }

  predicate AllStarted(jobs: seq<JobStatus>) {
    forall i :: 0 <= i < |jobs| ==> IsStarted(jobs[i])
  }

  /******* Pumping: start the jobs that may start now *******/

  predicate ShouldExecute(g: Graph, jobs: seq<JobStatus>, i: nat)
    requires g.Valid() && |jobs| == |g.deps| && i < |jobs|
  {
    !IsStarted(jobs[i]) && forall d :: d in g.deps[i] ==> !IsBlocking(jobs[d])
  }

  /** The first `slots` jobs at or after `from` that may start. */
  function Schedule(g: Graph, jobs: seq<JobStatus>, from: nat, slots: nat): seq<nat>
    requires g.Valid() && |jobs| == |g.deps| && from <= |jobs|
    decreases |jobs| - from
  {
    if from == |jobs| || slots == 0 then []
    else if ShouldExecute(g, jobs, from) then [from] + Schedule(g, jobs, from + 1, slots - 1)
    else Schedule(g, jobs, from + 1, slots)
  }

  function Executed(job: JobStatus): JobStatus {
    JobStatus(Running, true, true, job.executions + 1)
  }

  function ExecuteOne(s: System, i: nat): System
    requires i < |s.jobs|
  {
    s.(jobs := s.jobs[i := Executed(s.jobs[i])], working := s.working + {i})
  }

  /** Executes the scheduled jobs one after the other and records each as working. */
  function ExecuteAll(s: System, schedule: seq<nat>): (t: System)
    requires forall k :: 0 <= k < |schedule| ==> schedule[k] < |s.jobs|
    ensures |t.jobs| == |s.jobs|
    decreases |schedule|
  {
    if schedule == [] then s
    else
      ExecuteAll(ExecuteOne(s, schedule[0]), schedule[1..])
  }

  ghost predicate Executable(g: Graph, jobs: seq<JobStatus>, q: seq<nat>)
    requires g.Valid() && |jobs| == |g.deps|
  {
    forall k :: 0 <= k < |q| ==> q[k] < |jobs| && ShouldExecute(g, jobs, q[k])
  }

  ghost predicate Increasing(q: seq<nat>) {
    forall k, l :: 0 <= k < l < |q| ==> q[k] < q[l]
  }

  lemma {:induction false} ScheduleIsExecutable(g: Graph, jobs: seq<JobStatus>, from: nat, slots: nat)
    requires g.Valid() && |jobs| == |g.deps| && from <= |jobs|
    ensures |Schedule(g, jobs, from, slots)| <= slots
    ensures Executable(g, jobs, Schedule(g, jobs, from, slots))
    decreases |jobs| - from
  {
    if from != |jobs| && slots != 0 {
      if ShouldExecute(g, jobs, from) {
        ScheduleIsExecutable(g, jobs, from + 1, slots - 1);
      } else {
        ScheduleIsExecutable(g, jobs, from + 1, slots);
      }
    }
  }

  lemma {:induction false} ScheduleIsIncreasing(g: Graph, jobs: seq<JobStatus>, from: nat, slots: nat)
    requires g.Valid() && |jobs| == |g.deps| && from <= |jobs|
    ensures Increasing(Schedule(g, jobs, from, slots))
    ensures forall k :: 0 <= k < |Schedule(g, jobs, from, slots)| ==> from <= Schedule(g, jobs, from, slots)[k]
    decreases |jobs| - from
  {
    if from != |jobs| && slots != 0 {
      if ShouldExecute(g, jobs, from) {
        ScheduleIsIncreasing(g, jobs, from + 1, slots - 1);
      } else {
        ScheduleIsIncreasing(g, jobs, from + 1, slots);
      }
    }
  }

  /** The first `slots` jobs, in the overall order, that may start. */
  function Ready(g: Graph, jobs: seq<JobStatus>, slots: nat): (q: seq<nat>)
    requires g.Valid() && |jobs| == |g.deps|
    ensures forall k :: 0 <= k < |q| ==> q[k] < |jobs|
  {
    ScheduleIsExecutable(g, jobs, 0, slots);
    Schedule(g, jobs, 0, slots)
  }

  /** Fills the free slots with jobs that may start. */
  function StartReady(g: Graph, s: System): (t: System)
    requires g.Valid() && |s.jobs| == |g.deps|
    ensures |t.jobs| == |s.jobs|
  {
    var slots := g.concurrency - |s.working|;
    if slots <= 0 then s else ExecuteAll(s, Ready(g, s.jobs, slots))
  }

  function Pump(g: Graph, s: System): (t: System)
    requires g.Valid() && |s.jobs| == |g.deps|
    ensures |t.jobs| == |s.jobs|
  {
    if s.phase == Post then s
    else if AllStarted(s.jobs) && s.working == {} then s.(phase := Post, promise := s.promise.Resolve())
    else StartReady(g, s.(phase := Run))
  }

  /******* Hearing of a state change *******/

  function CheckRemoveWorking(s: System, i: nat): System
    requires i < |s.jobs|
  {
    var s := s.(working := if s.jobs[i].state == Running then s.working + {i} else s.working - {i});
    if IsFatalError(s.jobs[i]) then s.(promise := s.promise.Reject()) else s
  }

  /** A `startup()` that joins job `i` moves on once an event of `i` finds it stopped. */
  function WakeStartup(g: Graph, s: System, i: nat): Startup
    requires i < |s.jobs|
  {
    if s.startup.WaitingFor? && s.startup.at < |g.nodes| && g.nodes[s.startup.at] == i && IsStopped(s.jobs[i])
    then Joining(s.startup.at + 1)
    else s.startup
  }

  function Heard(g: Graph, s: System, i: nat): System
    requires i < |s.jobs|
  {
    s.(jobs := s.jobs[i := s.jobs[i].(event := false)], startup := WakeStartup(g, s, i))
  }

  function StopOnFatal(s: System, i: nat): System
    requires i < |s.jobs|
  {
    if IsFatalError(s.jobs[i]) then s.(phase := Post) else s
  }

  /**
   One delivered event.  The emitter calls the latest registered listener first: a joining
   `startup()`, then the starter, which updates `working` and pumps, and only then the graph,
   which stops when the error is fatal.
   */
  function Deliver(g: Graph, s: System, i: nat): System
    requires g.Valid() && |s.jobs| == |g.deps| && i < |s.jobs|
  {
    var heard := Heard(g, s, i);
    if s.phase == Post then heard
    else StopOnFatal(Pump(g, CheckRemoveWorking(heard, i)), i)
  }

  /******* Steps and runs *******/

  /**
   One turn of the event loop: the caller's `startup()`; job `i` setting an exit state inside
   its `_execute`; the `_execute` of job `i` returning or throwing; the delivery of an event;
   the continuation of `startup()`.
   */
  datatype Step = Start | ExitInside(i: nat, ok: bool) | Return(i: nat, ok: bool) | Event(i: nat) | Resume

  function Exit(ok: bool): JobState { if ok then SuccessExited else ErrorExited }

  /** A job that has reported success inside `_execute` does not throw afterwards. */
  predicate Enabled(g: Graph, s: System, step: Step)
    requires |s.jobs| == |g.deps|
  {
    match step
    case Start => s.startup == NotCalled
    case ExitInside(i, _) => i < |s.jobs| && s.jobs[i].state == Running
    case Return(i, ok) => i < |s.jobs| && s.jobs[i].executing && (s.jobs[i].state == SuccessExited ==> ok)
    case Event(i) => i < |s.jobs| && s.jobs[i].event
    case Resume =>
      match s.startup
      case Awaiting => s.promise != Pending
      case Joining(_) => true
      case _ => false
  }

  /** What the end of `_execute` does: an exit by way of `setState`, or a repeated event. */
  function Returned(job: JobStatus, ok: bool): JobStatus {
    if job.state == Running then job.(state := Exit(ok), event := true, executing := false)
    else job.(event := job.event || ok, executing := false)
  }

  function ResumeStartup(g: Graph, s: System): Startup
    requires g.Valid() && |s.jobs| == |g.deps|
  {
    match s.startup
    case Awaiting => if s.promise == Fulfilled then Resolved else if s.promise == Rejected then Joining(0) else Awaiting
    case Joining(k) =>
      if k >= |g.nodes| then Threw
      else if s.jobs[g.nodes[k]].state == Running then WaitingFor(k)
      else Joining(k + 1)
    case other => other
  }

  function Apply(g: Graph, s: System, step: Step): System
    requires g.Valid() && |s.jobs| == |g.deps| && Enabled(g, s, step)
  {
    match step
    case Start => Pump(g, s.(startup := Awaiting))
    case ExitInside(i, ok) => s.(jobs := s.jobs[i := s.jobs[i].(state := Exit(ok), event := true)])
    case Return(i, ok) => s.(jobs := s.jobs[i := Returned(s.jobs[i], ok)])
    case Event(i) => Deliver(g, s, i)
    case Resume => s.(startup := ResumeStartup(g, s))
  }

  function Initial(g: Graph): System {
    System(seq(|g.deps|, _ => JobStatus(NotStarted, false, false, 0)), {}, Pre, Pending, NotCalled)
  }

  /** A step that is not enabled changes nothing. */
  function Next(g: Graph, s: System, step: Step): (t: System)
    requires g.Valid() && |s.jobs| == |g.deps|
    ensures |t.jobs| == |s.jobs|
  {
    if Enabled(g, s, step) then Apply(g, s, step) else s
  }

  /** The state after a run of steps from `s`. */
  function After(g: Graph, s: System, steps: seq<Step>): (t: System)
    requires g.Valid() && |s.jobs| == |g.deps|
    ensures |t.jobs| == |s.jobs|
    decreases |steps|
  {
    if steps == [] then s else After(g, Next(g, s, steps[0]), steps[1..])
  }

  /** Every step of the run is enabled when it is taken. */
  ghost predicate AllEnabled(g: Graph, s: System, steps: seq<Step>)
    requires g.Valid() && |s.jobs| == |g.deps|
    decreases |steps|
  {
    steps == [] || (Enabled(g, s, steps[0]) && AllEnabled(g, Next(g, s, steps[0]), steps[1..]))
  }

  /** Nothing can happen any more. */
  ghost predicate Quiescent(g: Graph, s: System)
    requires |s.jobs| == |g.deps|
  {
    forall step :: !Enabled(g, s, step)
  }
}
