/**
 Progress of the scheduler: every run is finite, and `startup()` settles at its end.
 */
module JobGraphProgress {
  import opened JobGraphModel
  import opened JobGraphSafety
  import opened JobGraphRuns

  /******* The measure *******/

  function JobWork(job: JobStatus): nat {
    (if job.state == NotStarted then 6 else if job.state == Running then 4 else if job.executing then 2 else 0)
    + if job.event then 1 else 0
  }

  function Work(jobs: seq<JobStatus>): nat {
    if jobs == [] then 0 else JobWork(jobs[0]) + Work(jobs[1..])
  }

  function StartupWork(g: Graph, startup: Startup): int {
    match startup
    case NotCalled => 2 * |g.nodes| + 4
    case Awaiting => 2 * |g.nodes| + 3
    case Joining(k) => 2 * (|g.nodes| - k) + 2
    case WaitingFor(k) => 2 * (|g.nodes| - k) + 1
    case Resolved => 0
    case Threw => 0
  }

  function Remaining(g: Graph, s: System): int { Work(s.jobs) + StartupWork(g, s.startup) }

  lemma {:induction false} WorkUpdate(jobs: seq<JobStatus>, i: nat, job: JobStatus)
    requires i < |jobs|
    ensures Work(jobs[i := job]) == Work(jobs) - JobWork(jobs[i]) + JobWork(job)
    decreases |jobs|
  {
    if i == 0 {
      assert jobs[0 := job][1..] == jobs[1..];
    } else {
      WorkUpdate(jobs[1..], i - 1, job);
      assert jobs[i := job][1..] == jobs[1..][i - 1 := job];
    }
  }

  lemma {:induction false} WorkShrinks(before: seq<JobStatus>, after: seq<JobStatus>)
    requires |before| == |after|
    requires forall i :: 0 <= i < |before| ==> JobWork(after[i]) <= JobWork(before[i])
    ensures Work(after) <= Work(before)
    decreases |before|
  {
    if before != [] {
      WorkShrinks(before[1..], after[1..]);
    }
  }

  lemma PumpDoesNotAddWork(g: Graph, s: System)
    requires Core(g, s) && s.phase != Post
    ensures Remaining(g, Pump(g, s)) <= Remaining(g, s)
  {
    PumpKeepsCore(g, s);
    WorkShrinks(s.jobs, Pump(g, s).jobs);
  }

  lemma HearingDecreases(g: Graph, s: System, i: nat)
    requires i < |s.jobs| && s.jobs[i].event
    ensures Remaining(g, Heard(g, s, i)) < Remaining(g, s)
    ensures Remaining(g, CheckRemoveWorking(Heard(g, s, i), i)) == Remaining(g, Heard(g, s, i))
  {
    WorkUpdate(s.jobs, i, s.jobs[i].(event := false));
    hide Work;
  }

  lemma EventDecreases(g: Graph, s: System, i: nat)
    requires Inv(g, s) && Enabled(g, s, Event(i))
    ensures Remaining(g, Apply(g, s, Event(i))) < Remaining(g, s)
  {
    HearingDecreases(g, s, i);
    if s.phase != Post {
      var heard := CheckRemoveWorking(Heard(g, s, i), i);
      HearingKeepsCore(g, s, i);
      PumpDoesNotAddWork(g, heard);
      hide Inv, Core, Pump, CheckRemoveWorking, Heard, Work, StartupWork;
    }
  }

  lemma ReturnDecreases(g: Graph, s: System, i: nat, ok: bool)
    requires Inv(g, s) && Enabled(g, s, Return(i, ok))
    ensures JobWork(Returned(s.jobs[i], ok)) < JobWork(s.jobs[i])
  {
    assert JobOk(s.jobs[i]);
  }

  lemma ResumeDecreases(g: Graph, s: System)
    requires Inv(g, s) && Enabled(g, s, Resume)
    ensures StartupWork(g, ResumeStartup(g, s)) < StartupWork(g, s.startup)
  {
    hide DependenciesDone, WorkingOk, PromiseOk, JobOk;
  }

  lemma StepDecreases(g: Graph, s: System, step: Step)
    requires Inv(g, s) && Enabled(g, s, step)
    ensures Remaining(g, Apply(g, s, step)) < Remaining(g, s)
  {
    hide Inv, Core, Pump, Deliver, Work, ResumeStartup, Returned;
    match step
    case Start =>
      StartIsCore(g, s);
      PumpDoesNotAddWork(g, s.(startup := Awaiting));
    case ExitInside(i, ok) => WorkUpdate(s.jobs, i, s.jobs[i].(state := Exit(ok), event := true));
    case Return(i, ok) =>
      ReturnDecreases(g, s, i, ok);
      WorkUpdate(s.jobs, i, Returned(s.jobs[i], ok));
    case Event(i) => EventDecreases(g, s, i);
    case Resume => ResumeDecreases(g, s);
  }

  /******* No slot is left idle *******/

  lemma {:induction false} ScheduleExhausts(g: Graph, jobs: seq<JobStatus>, from: nat, slots: nat, j: nat)
    requires g.Valid() && |jobs| == |g.deps| && from <= j < |jobs| && ShouldExecute(g, jobs, j)
    ensures |Schedule(g, jobs, from, slots)| == slots || j in Schedule(g, jobs, from, slots)
    decreases |jobs| - from
  {
    if slots != 0 && from < j {
      ScheduleExhausts(g, jobs, from + 1, if ShouldExecute(g, jobs, from) then slots - 1 else slots, j);
    }
  }

  lemma {:induction false} ExecuteAllCount(s: System, q: seq<nat>)
    requires Increasing(q) && forall k :: 0 <= k < |q| ==> q[k] < |s.jobs| && q[k] !in s.working
    ensures |ExecuteAll(s, q).working| == |s.working| + |q|
    decreases |q|
  {
    if q != [] {
      ExecuteAllCount(ExecuteOne(s, q[0]), q[1..]);
    }
  }

  lemma WorkingAreStarted(g: Graph, s: System)
    requires Core(g, s) && s.phase != Post
    ensures forall i :: i in s.working ==> IsStarted(s.jobs[i])
  {
    forall i | i in s.working ensures IsStarted(s.jobs[i]) {
      assert JobOk(s.jobs[i]);
    }
  }

  lemma StartReadyFillsSlots(g: Graph, s: System, j: nat)
    requires g.Valid() && |s.jobs| == |g.deps| && j < |s.jobs| && |s.working| < Slots(g)
    requires forall i :: i in s.working ==> i < |s.jobs| && IsStarted(s.jobs[i])
    requires ShouldExecute(g, s.jobs, j) && !IsStarted(StartReady(g, s).jobs[j])
    ensures |StartReady(g, s).working| == Slots(g)
  {
    hide Schedule, ExecuteAll;
    var slots := g.concurrency - |s.working|;
    var q := Ready(g, s.jobs, slots);
    ScheduleIsExecutable(g, s.jobs, 0, slots);
    ScheduleIsIncreasing(g, s.jobs, 0, slots);
    ExecuteAllEffect(s, q);
    ScheduleExhausts(g, s.jobs, 0, slots, j);
    ExecuteAllCount(s, q);
  }

  /** After a pump either every slot is in use or no job at all may start. */
  lemma PumpLeavesNoIdleSlot(g: Graph, s: System, j: nat)
    requires Core(g, s) && s.phase != Post && j < |s.jobs|
    ensures var t := Pump(g, s);
            t.phase == Run && ShouldExecute(g, t.jobs, j) ==> |t.working| == Slots(g)
  {
    var t := Pump(g, s);
    if t.phase == Run && ShouldExecute(g, t.jobs, j) && |s.working| < Slots(g) {
      PumpKeepsCore(g, s);
      assert ShouldExecute(g, s.jobs, j);
      WorkingAreStarted(g, s);
      StartReadyFillsSlots(g, s.(phase := Run), j);
    }
  }

  /******* Theorems *******/

  lemma {:induction false} RunDecreases(g: Graph, s: System, steps: seq<Step>)
    requires Inv(g, s) && AllEnabled(g, s, steps)
    ensures |steps| + Remaining(g, After(g, s, steps)) <= Remaining(g, s)
    decreases |steps|
  {
    if steps != [] {
      StepDecreases(g, s, steps[0]);
      StepKeepsInv(g, s, steps[0]);
      RunDecreases(g, Next(g, s, steps[0]), steps[1..]);
    }
  }

  /** Every run is finite: at most six steps for each job and two for each join, and four more. */
  lemma RunsAreFinite(g: Graph, steps: seq<Step>)
    requires g.Valid() && AllEnabled(g, Initial(g), steps)
    ensures |steps| <= 6 * |g.deps| + 2 * |g.nodes| + 4
  {
    InitialInv(g);
    InitialWork(Initial(g).jobs);
    RunDecreases(g, Initial(g), steps);
    ReachedInv(g, steps);
  }

  lemma {:induction false} InitialWork(jobs: seq<JobStatus>)
    requires forall i :: 0 <= i < |jobs| ==> jobs[i] == WAITING
    ensures Work(jobs) == 6 * |jobs|
    decreases |jobs|
  {
    if jobs != [] {
      InitialWork(jobs[1..]);
    }
  }

  /** From every state of a run some further steps lead to the end of the run. */
  lemma {:induction false} RunsReachQuiescence(g: Graph, s: System) returns (more: seq<Step>)
    requires Inv(g, s)
    ensures AllEnabled(g, s, more) && Quiescent(g, After(g, s, more))
    decreases Remaining(g, s)
  {
    if Quiescent(g, s) {
      more := [];
    } else {
      var step :| Enabled(g, s, step);
      StepDecreases(g, s, step);
      StepKeepsInv(g, s, step);
      var rest := RunsReachQuiescence(g, Next(g, s, step));
      more := [step] + rest;
      assert more[1..] == rest;
    }
  }

  lemma NothingLeftToRun(g: Graph, s: System)
    requires Inv(g, s) && Quiescent(g, s)
    ensures s.startup != NotCalled
    ensures forall i :: 0 <= i < |s.jobs| ==> s.jobs[i].state != Running && !s.jobs[i].event
    ensures s.startup.Awaiting? ==> s.promise == Pending
    ensures !s.startup.Joining? && !s.startup.WaitingFor?
  {
    assert !Enabled(g, s, Start);
    assert !Enabled(g, s, Resume);
    forall i | 0 <= i < |s.jobs| ensures s.jobs[i].state != Running && !s.jobs[i].event {
      assert !Enabled(g, s, ExitInside(i, true));
      assert !Enabled(g, s, Event(i));
    }
  }

  /**
   When nothing can happen any more, `startup()` has resolved if every job succeeded and thrown
   if some job failed, provided there is a slot to run jobs in.
   */
  lemma StartupSettles(g: Graph, steps: seq<Step>)
    requires g.Valid() && Quiescent(g, Reached(g, steps))
    requires g.concurrency >= 1 || |g.deps| == 0
    ensures var s := Reached(g, steps);
            && (s.startup == Resolved <==> AllSucceeded(s.jobs))
            && (s.startup == Threw <==> SomeFailed(s.jobs))
            && (s.startup == Resolved || s.startup == Threw)
  {
    var s := Reached(g, steps);
    ReachedInv(g, steps);
    NothingLeftToRun(g, s);
    assert s.phase != Run;
  }

  ghost predicate NeverStarted(g: Graph, s: System) {
    && s.jobs == Initial(g).jobs && s.working == {} && s.promise == Pending && s.phase != Post
    && (s.startup == NotCalled || s.startup == Awaiting)
  }

  /** Without a slot, a graph that has jobs never starts one, and `startup()` never settles. */
  lemma {:induction false} NoSlotNoStart(g: Graph, s: System, steps: seq<Step>)
    requires g.Valid() && g.concurrency <= 0 && |g.deps| > 0 && NeverStarted(g, s)
    ensures NeverStarted(g, After(g, s, steps))
    decreases |steps|
  {
    if steps != [] {
      assert !IsStarted(s.jobs[0]);
      NoSlotNoStart(g, Next(g, s, steps[0]), steps[1..]);
    }
  }

  /** A run that is over has settled `startup()` exactly if there is a slot or nothing to run. */
  lemma StartupSettlesExactly(g: Graph, steps: seq<Step>)
    requires g.Valid() && Quiescent(g, Reached(g, steps))
    ensures var s := Reached(g, steps);
            s.startup == Resolved || s.startup == Threw <==> g.concurrency >= 1 || |g.deps| == 0
  {
    if g.concurrency >= 1 || |g.deps| == 0 {
      StartupSettles(g, steps);
    } else {
      NoSlotNoStart(g, Initial(g), steps);
    }
  }
}
