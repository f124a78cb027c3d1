/**
 Exactly which jobs a step starts.
 */
module JobGraphStarts {
  import opened JobGraphModel
  import opened JobGraphSafety
  import opened JobGraphRuns
  import opened JobGraphOutcomes

  /** It has not been started, and all that it depends on, directly or indirectly, has succeeded. */
  predicate MayStart(g: Graph, jobs: seq<JobStatus>, i: nat) {
    && i < |jobs| && i < |g.deps| && jobs[i].state == NotStarted
    && forall d :: d in g.deps[i] ==> d < |jobs| && jobs[d].state == SuccessExited
  }

  /** The jobs from `from` on that may start and come before job `i`. */
  function Earlier(g: Graph, jobs: seq<JobStatus>, from: nat, i: nat): set<nat> {
    set j: nat | from <= j < i && MayStart(g, jobs, j)
  }

  lemma EarlierFrom(g: Graph, jobs: seq<JobStatus>, from: nat, i: nat)
    requires from < i
    ensures |Earlier(g, jobs, from, i)| == |Earlier(g, jobs, from + 1, i)| + if MayStart(g, jobs, from) then 1 else 0
  {
    hide MayStart;
    var here, later := Earlier(g, jobs, from, i), Earlier(g, jobs, from + 1, i);
    if MayStart(g, jobs, from) {
      assert here == later + {from};
    } else {
      assert here == later;
    }
  }

  lemma ShouldExecuteExactly(g: Graph, jobs: seq<JobStatus>, i: nat)
    requires g.Valid() && |jobs| == |g.deps| && i < |jobs|
    ensures ShouldExecute(g, jobs, i) <==> MayStart(g, jobs, i)
  {
  }

  /** Scheduled are those that may start and have fewer than so many of these before them. */
  lemma {:induction false} ScheduledExactly(g: Graph, jobs: seq<JobStatus>, from: nat, slots: nat)
    requires g.Valid() && |jobs| == |g.deps| && from <= |jobs|
    ensures forall i: nat :: i in Schedule(g, jobs, from, slots) <==>
      from <= i && MayStart(g, jobs, i) && |Earlier(g, jobs, from, i)| < slots
    decreases |jobs| - from
  {
    hide MayStart, Earlier, ShouldExecute;
    if from == |jobs| {
      NoneBehind(g, jobs);
    } else if slots != 0 {
      ShouldExecuteExactly(g, jobs, from);
      NoneEarlier(g, jobs, from);
      var rest := if MayStart(g, jobs, from) then slots - 1 else slots;
      ScheduledExactly(g, jobs, from + 1, rest);
      forall i: nat
        ensures i in Schedule(g, jobs, from, slots) <==>
          from <= i && MayStart(g, jobs, i) && |Earlier(g, jobs, from, i)| < slots
      {
        if from < i {
          EarlierFrom(g, jobs, from, i);
        }
      }
    }
  }

  lemma NoneBehind(g: Graph, jobs: seq<JobStatus>)
    ensures forall i: nat :: i >= |jobs| ==> !MayStart(g, jobs, i)
  {
  }

  lemma NoneEarlier(g: Graph, jobs: seq<JobStatus>, i: nat)
    ensures |Earlier(g, jobs, i, i)| == 0
  {
    assert Earlier(g, jobs, i, i) == {};
  }

  /** A pump with `free` slots starts the first `free` jobs that may start, and no other. */
  lemma PumpStartsExactly(g: Graph, s: System, i: nat)
    requires Core(g, s) && s.phase != Post && i < |s.jobs|
    ensures var t, free := Pump(g, s), g.concurrency - |s.working|;
      var starts := MayStart(g, s.jobs, i) && |Earlier(g, s.jobs, 0, i)| < free;
      && t.jobs[i] == (if starts then JobStatus(Running, true, true, 1) else s.jobs[i])
      && (i in t.working <==> i in s.working || starts)
  {
    hide MayStart, Earlier, Schedule, ExecuteAll, AllStarted;
    var free := g.concurrency - |s.working|;
    ShouldExecuteExactly(g, s.jobs, i);
    if AllStarted(s.jobs) && s.working == {} {
      NoneMayStart(g, s.jobs, i);
    } else if free > 0 {
      var r := s.(phase := Run);
      ScheduledExactly(g, s.jobs, 0, free);
      ScheduleIsExecutable(g, s.jobs, 0, free);
      ScheduleIsIncreasing(g, s.jobs, 0, free);
      ExecuteAllEffect(r, Ready(g, s.jobs, free));
      assert JobOk(s.jobs[i]);
    }
  }

  lemma NoneMayStart(g: Graph, jobs: seq<JobStatus>, i: nat)
    requires AllStarted(jobs)
    ensures !MayStart(g, jobs, i)
  {
  }

  // ------------------------------------------------------------------ the steps

  /** Only the start and the delivery of an event pump, until the starter has stopped. */
  predicate Pumps(s: System, step: Step) {
    s.phase != Post && (step.Start? || (step.Event? && step.i < |s.jobs|))
  }

  /** The jobs at work when it pumps: that of the event as its state says now. */
  function WorkingThen(s: System, step: Step): set<nat>
    requires Pumps(s, step)
  {
    if step.Start? then s.working
    else if s.jobs[step.i].state == Running then s.working + {step.i}
    else s.working - {step.i}
  }

  /** Job `i` may start, and fewer jobs that may start come before it than there are free slots. */
  predicate Starts(g: Graph, s: System, step: Step, i: nat) {
    && Pumps(s, step) && MayStart(g, s.jobs, i)
    && |Earlier(g, s.jobs, 0, i)| < g.concurrency - |WorkingThen(s, step)|
  }

  /** What an enabled step makes of job `i`. */
  ghost predicate JobAfter(g: Graph, s: System, step: Step, i: nat, job: JobStatus)
    requires i < |s.jobs|
  {
    var was := s.jobs[i];
    if Starts(g, s, step, i) then job == JobStatus(Running, true, true, 1)
    else
      match step
      case ExitInside(j, ok) =>
        job == if j == i then JobStatus(if ok then SuccessExited else ErrorExited, true, was.executing, 1) else was
      case Return(j, ok) =>
        job == if j != i then was
               else if was.state != Running then JobStatus(was.state, was.event || ok, false, 1)
               else JobStatus(if ok then SuccessExited else ErrorExited, true, false, 1)
      case Event(j) => job == if j == i then was.(event := false) else was
      case _ => job == was
  }

  lemma SameMayStart(g: Graph, a: seq<JobStatus>, b: seq<JobStatus>)
    requires |a| == |b| && forall j :: 0 <= j < |a| ==> a[j].state == b[j].state
    ensures forall j: nat :: MayStart(g, a, j) == MayStart(g, b, j) && Earlier(g, a, 0, j) == Earlier(g, b, 0, j)
  {
  }

  lemma DeliveryStarts(g: Graph, s: System, e: nat, i: nat)
    requires Inv(g, s) && e < |s.jobs| && s.jobs[e].event && i < |s.jobs|
    ensures JobAfter(g, s, Event(e), i, Deliver(g, s, e).jobs[i])
  {
    hide MayStart, Earlier, Pump;
    if s.phase != Post {
      var heard := CheckRemoveWorking(Heard(g, s, e), e);
      HearingKeepsCore(g, s, e);
      HearingKeepsStates(g, s, e);
      SameMayStart(g, s.jobs, heard.jobs);
      PumpStartsExactly(g, heard, i);
      assert JobOk(s.jobs[i]);
    }
    hide Core, JoinOk, CheckRemoveWorking, WakeStartup;
  }

  /** In every run, what the next step makes of a job; in particular whether it starts that job. */
  lemma StartsExactly(g: Graph, steps: seq<Step>, step: Step, i: nat)
    requires g.Valid() && i < |g.deps| && Enabled(g, Reached(g, steps), step)
    ensures var s := Reached(g, steps); JobAfter(g, s, step, i, Reached(g, steps + [step]).jobs[i])
  {
    hide After, MayStart, Earlier;
    var s := Reached(g, steps);
    ReachedInv(g, steps);
    AfterSnoc(g, Initial(g), steps, step);
    assert JobOk(s.jobs[i]);
    hide Core, JoinOk, Pump, Deliver, ResumeStartup;
    match step
    case Start =>
      StartIsCore(g, s);
      PumpStartsExactly(g, s.(startup := Awaiting), i);
    case Event(e) => DeliveryStarts(g, s, e, i);
    case _ =>
  }
}
