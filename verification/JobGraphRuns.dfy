/**
 What the scheduler guarantees in every run of one-shot jobs, failing ones included.
 */
module JobGraphRuns {
  import opened JobGraphModel
  import opened JobGraphSafety
  import FiniteSets

  lemma InitialInv(g: Graph)
    requires g.Valid()
    ensures Inv(g, Initial(g))
  {
    var s := Initial(g);
    assert DependenciesDone(g, s.jobs);
  }

  lemma {:induction false} RunKeepsInv(g: Graph, s: System, steps: seq<Step>)
    requires Inv(g, s)
    ensures Inv(g, After(g, s, steps))
    decreases |steps|
  {
    if steps != [] {
      NextKeepsInv(g, s, steps[0]);
      RunKeepsInv(g, Next(g, s, steps[0]), steps[1..]);
    }
  }

  lemma NextKeepsInv(g: Graph, s: System, step: Step)
    requires Inv(g, s)
    ensures Inv(g, Next(g, s, step))
  {
    if Enabled(g, s, step) {
      StepKeepsInv(g, s, step);
    }
  }

  /** The state a run from the start leads to. */
  function Reached(g: Graph, steps: seq<Step>): (s: System)
    requires g.Valid()
    ensures |s.jobs| == |g.deps|
  {
    After(g, Initial(g), steps)
  }

  lemma ReachedInv(g: Graph, steps: seq<Step>)
    requires g.Valid()
    ensures Inv(g, Reached(g, steps))
  {
    InitialInv(g);
    RunKeepsInv(g, Initial(g), steps);
  }

  /******* How one job moves *******/

  /** Jobs only move forward: nothing returns to `NotStarted`, and an exit is final. */
  ghost predicate Forward(a: JobStatus, b: JobStatus) {
    && (IsStarted(a) ==> IsStarted(b))
    && (IsStopped(a) ==> b.state == a.state)
  }

  ghost predicate MovesForward(s: System, t: System) {
    && |t.jobs| == |s.jobs|
    && (forall j :: 0 <= j < |s.jobs| ==> Forward(s.jobs[j], t.jobs[j]))
    && (s.phase == Post ==> t.phase == Post)
    && (s.phase == Post ==> forall j :: 0 <= j < |s.jobs| && !IsStarted(s.jobs[j]) ==> t.jobs[j] == s.jobs[j])
  }

  lemma PumpMovesForward(g: Graph, s: System)
    requires Core(g, s) && s.phase != Post
    ensures MovesForward(s, Pump(g, s))
  {
    PumpKeepsCore(g, s);
  }

  lemma HearingKeepsStates(g: Graph, s: System, i: nat)
    requires i < |s.jobs|
    ensures var heard := CheckRemoveWorking(Heard(g, s, i), i);
      |heard.jobs| == |s.jobs| && forall j :: 0 <= j < |s.jobs| ==> heard.jobs[j].state == s.jobs[j].state
  {
  }

  lemma LateEventMovesForward(g: Graph, s: System, i: nat)
    requires Inv(g, s) && Enabled(g, s, Event(i)) && s.phase == Post
    ensures MovesForward(s, Heard(g, s, i))
  {
    hide DependenciesDone, WorkingOk, PromiseOk, JoinOk, WakeStartup;
    assert JobOk(s.jobs[i]);
  }

  lemma EventMovesForward(g: Graph, s: System, i: nat)
    requires Inv(g, s) && Enabled(g, s, Event(i))
    ensures MovesForward(s, Deliver(g, s, i))
  {
    hide DependenciesDone, WorkingOk, PromiseOk, JoinOk, JobOk, Pump, WakeStartup;
    if s.phase == Post {
      LateEventMovesForward(g, s, i);
    } else {
      var heard := CheckRemoveWorking(Heard(g, s, i), i);
      HearingKeepsStates(g, s, i);
      HearingKeepsCore(g, s, i);
      PumpMovesForward(g, heard);
      forall j | 0 <= j < |s.jobs| ensures Forward(s.jobs[j], Deliver(g, s, i).jobs[j]) {
        assert Forward(heard.jobs[j], Pump(g, heard).jobs[j]);
      }
    }
  }

  lemma StepMovesForward(g: Graph, s: System, step: Step)
    requires Inv(g, s) && Enabled(g, s, step)
    ensures MovesForward(s, Apply(g, s, step))
  {
    hide Core, JoinOk, Pump, Deliver, Inv, ResumeStartup;
    match step
    case Start =>
      StartIsCore(g, s);
      PumpMovesForward(g, s.(startup := Awaiting));
    case Event(i) => EventMovesForward(g, s, i);
    case ExitInside(_, _) => StartedStays(g, s, step);
    case Return(_, _) => StartedStays(g, s, step);
    case Resume =>
  }

  lemma StartIsCore(g: Graph, s: System)
    requires Inv(g, s) && Enabled(g, s, Start)
    ensures Core(g, s.(startup := Awaiting)) && s.phase != Post
  {
    StartupKeepsCore(g, s, Awaiting);
  }

  lemma StartedStays(g: Graph, s: System, step: Step)
    requires Inv(g, s) && (step.ExitInside? || step.Return?) && Enabled(g, s, step)
    ensures MovesForward(s, Apply(g, s, step))
  {
    hide DependenciesDone, WorkingOk, PromiseOk, JoinOk;
    assert JobOk(s.jobs[step.i]);
  }

  lemma {:induction false} RunMovesForward(g: Graph, s: System, steps: seq<Step>)
    requires Inv(g, s)
    ensures MovesForward(s, After(g, s, steps))
    decreases |steps|
  {
    if steps != [] {
      var t := Next(g, s, steps[0]);
      NextKeepsInv(g, s, steps[0]);
      if Enabled(g, s, steps[0]) {
        StepMovesForward(g, s, steps[0]);
      }
      RunMovesForward(g, t, steps[1..]);
    }
  }

  /******* Theorems over all runs *******/

  /** The promise of the start-up is fulfilled only if every job has succeeded. */
  lemma FulfilledMeansAllSucceeded(g: Graph, steps: seq<Step>)
    requires g.Valid()
    ensures var s := Reached(g, steps);
            && (s.promise == Fulfilled || s.startup == Resolved ==> AllSucceeded(s.jobs))
            && (s.promise == Rejected || s.startup == Threw ==> SomeFailed(s.jobs))
  {
    ReachedInv(g, steps);
  }

  /** When `startup()` throws no job is running, and none will start later. */
  lemma ThrowsOnlyWhenNothingRuns(g: Graph, steps: seq<Step>, more: seq<Step>)
    requires g.Valid() && Reached(g, steps).startup == Threw
    ensures var s := Reached(g, steps);
            forall i :: 0 <= i < |g.deps| ==>
              s.jobs[i].state != Running && After(g, s, more).jobs[i].state == s.jobs[i].state
  {
    var s := Reached(g, steps);
    ReachedInv(g, steps);
    RunMovesForward(g, s, more);
    forall i | 0 <= i < |g.deps| ensures s.jobs[i].state != Running {
      assert i in g.nodes;
      var n :| 0 <= n < |g.nodes| && g.nodes[n] == i;
    }
  }

  /** A job that has left `NotStarted` has all its dependencies, indirect ones too, succeeded. */
  lemma DependencySafety(g: Graph, steps: seq<Step>, i: nat, d: nat)
    requires g.Valid() && i < |g.deps| && d in g.deps[i]
    ensures IsStarted(Reached(g, steps).jobs[i]) ==> Reached(g, steps).jobs[d].state == SuccessExited
  {
    ReachedInv(g, steps);
  }

  /** A job some dependency of which fails, now or later in the run, is started neither before nor after. */
  lemma FailureBlocksDependants(g: Graph, steps: seq<Step>, more: seq<Step>, i: nat, d: nat)
    requires g.Valid() && i < |g.deps| && d in g.deps[i]
    ensures var s := Reached(g, steps);
            var t := After(g, s, more);
            s.jobs[d].state == ErrorExited || t.jobs[d].state == ErrorExited ==>
              !IsStarted(s.jobs[i]) && !IsStarted(t.jobs[i])
  {
    var s := Reached(g, steps);
    ReachedInv(g, steps);
    RunKeepsInv(g, s, more);
    RunMovesForward(g, s, more);
    assert Forward(s.jobs[i], After(g, s, more).jobs[i]);
    assert Forward(s.jobs[d], After(g, s, more).jobs[d]);
  }

  function RunningJobs(s: System): set<nat> {
    set i: nat | i < |s.jobs| && s.jobs[i].state == Running
  }

  /** Running jobs are working jobs, and these never exceed the concurrency. */
  lemma ConcurrencyBound(g: Graph, steps: seq<Step>)
    requires g.Valid()
    ensures var s := Reached(g, steps);
            RunningJobs(s) <= s.working && |RunningJobs(s)| <= |s.working| <= Slots(g)
  {
    var s := Reached(g, steps);
    ReachedInv(g, steps);
    FiniteSets.SubsetCardinality(RunningJobs(s), s.working);
  }

  /** How many steps of a run start job `i`. */
  function Starts(g: Graph, s: System, steps: seq<Step>, i: nat): nat
    requires g.Valid() && |s.jobs| == |g.deps| && i < |s.jobs|
    decreases |steps|
  {
    if steps == [] then 0
    else
      var t := Next(g, s, steps[0]);
      (if IsStarted(t.jobs[i]) && !IsStarted(s.jobs[i]) then 1 else 0) + Starts(g, t, steps[1..], i)
  }

  lemma {:induction false} StartsCounted(g: Graph, s: System, steps: seq<Step>, i: nat)
    requires Inv(g, s) && i < |s.jobs|
    ensures Starts(g, s, steps, i) == After(g, s, steps).jobs[i].executions - s.jobs[i].executions
    decreases |steps|
  {
    RunKeepsInv(g, s, steps);
    assert JobOk(After(g, s, steps).jobs[i]) && JobOk(s.jobs[i]);
    if steps != [] {
      NextKeepsInv(g, s, steps[0]);
      RunMovesForward(g, s, [steps[0]]);
      assert After(g, s, [steps[0]]) == Next(g, s, steps[0]);
      assert JobOk(Next(g, s, steps[0]).jobs[i]);
      StartsCounted(g, Next(g, s, steps[0]), steps[1..], i);
    }
  }

  /** In a run a job's `_execute` is entered at most once, and entered each time the job starts. */
  lemma ExecutedAtMostOnce(g: Graph, steps: seq<Step>, i: nat)
    requires g.Valid() && i < |g.deps|
    ensures Reached(g, steps).jobs[i].executions == Starts(g, Initial(g), steps, i) <= 1
  {
    InitialInv(g);
    ReachedInv(g, steps);
    StartsCounted(g, Initial(g), steps, i);
    assert JobOk(Reached(g, steps).jobs[i]);
  }

  /** Once a fatal event has been delivered, no further job starts. */
  lemma NoStartAfterFatalEvent(g: Graph, steps: seq<Step>, more: seq<Step>, i: nat, j: nat)
    requires g.Valid() && i < |g.deps| && j < |g.deps|
    requires Reached(g, steps).jobs[i].state == ErrorExited && !Reached(g, steps).jobs[i].event
    ensures !IsStarted(Reached(g, steps).jobs[j]) ==> !IsStarted(After(g, Reached(g, steps), more).jobs[j])
  {
    ReachedInv(g, steps);
    RunMovesForward(g, Reached(g, steps), more);
  }

  lemma FatalEventFreesSlot(g: Graph, s: System, i: nat)
    requires Inv(g, s) && s.phase == Run && i < |s.jobs| && s.jobs[i].event && s.jobs[i].state == ErrorExited
    ensures |CheckRemoveWorking(Heard(g, s, i), i).working| < Slots(g)
  {
    hide DependenciesDone, JoinOk, JobOk, WakeStartup;
    assert i in s.working;
    assert CheckRemoveWorking(Heard(g, s, i), i).working == s.working - {i} by {
      HearingFreesSlots(g, s, i);
    }
  }

  /**
   The delivery of the fatal event itself still pumps before the graph stops.  It starts a job
   exactly when some unstarted job has all its dependencies done.
   */
  lemma FatalEventStartsExactlyIfReady(g: Graph, s: System, i: nat)
    requires Inv(g, s) && s.phase == Run && i < |s.jobs| && s.jobs[i].event && s.jobs[i].state == ErrorExited
    ensures (exists j :: 0 <= j < |s.jobs| && ShouldExecute(g, s.jobs, j))
            <==> (exists j :: 0 <= j < |s.jobs| && !IsStarted(s.jobs[j]) && IsStarted(Deliver(g, s, i).jobs[j]))
  {
    var heard := CheckRemoveWorking(Heard(g, s, i), i);
    HearingKeepsCore(g, s, i);
    HearingKeepsStates(g, s, i);
    FatalEventFreesSlot(g, s, i);
    hide Inv, Core, Pump, CheckRemoveWorking, Heard;
    PumpStartsExactlyIfReady(g, heard);
    assert forall j :: 0 <= j < |s.jobs| ==> ShouldExecute(g, heard.jobs, j) == ShouldExecute(g, s.jobs, j);
    assert Deliver(g, s, i).jobs == Pump(g, heard).jobs;
    hide ShouldExecute;
    assert forall j :: 0 <= j < |s.jobs| ==> IsStarted(heard.jobs[j]) == IsStarted(s.jobs[j]);
  }

  /** With a free slot, a pump starts a job whenever one may start. */
  lemma PumpStartsReady(g: Graph, s: System, j: nat) returns (first: nat)
    requires g.Valid() && |s.jobs| == |g.deps| && s.phase == Run && |s.working| < Slots(g)
    requires j < |s.jobs| && ShouldExecute(g, s.jobs, j)
    ensures first < |s.jobs| && !IsStarted(s.jobs[first]) && IsStarted(Pump(g, s).jobs[first])
  {
    ReadyNonEmpty(g, s.jobs, 0, j, g.concurrency - |s.working|);
    first := Ready(g, s.jobs, g.concurrency - |s.working|)[0];
    assert s.(phase := Run) == s;
    StartReadyStartsFirst(g, s);
  }

  /** A pump starts only jobs that may start. */
  lemma PumpStartsOnlyReady(g: Graph, s: System, j: nat)
    requires g.Valid() && |s.jobs| == |g.deps| && s.phase == Run && |s.working| < Slots(g)
    requires j < |s.jobs| && !IsStarted(s.jobs[j]) && IsStarted(Pump(g, s).jobs[j])
    ensures ShouldExecute(g, s.jobs, j)
  {
    assert s.(phase := Run) == s;
    StartReadyStartsSome(g, s);
  }

  lemma PumpStartsExactlyIfReady(g: Graph, s: System)
    requires g.Valid() && |s.jobs| == |g.deps| && s.phase == Run && |s.working| < Slots(g)
    ensures (exists j :: 0 <= j < |s.jobs| && ShouldExecute(g, s.jobs, j))
            <==> (exists j :: 0 <= j < |s.jobs| && !IsStarted(s.jobs[j]) && IsStarted(Pump(g, s).jobs[j]))
  {
    if j :| 0 <= j < |s.jobs| && ShouldExecute(g, s.jobs, j) {
      var _ := PumpStartsReady(g, s, j);
    }
    if j :| 0 <= j < |s.jobs| && !IsStarted(s.jobs[j]) && IsStarted(Pump(g, s).jobs[j]) {
      PumpStartsOnlyReady(g, s, j);
    }
  }

  lemma {:induction false} ReadyNonEmpty(g: Graph, jobs: seq<JobStatus>, from: nat, j: nat, slots: nat)
    requires g.Valid() && |jobs| == |g.deps| && from <= j < |jobs| && slots > 0 && ShouldExecute(g, jobs, j)
    ensures Schedule(g, jobs, from, slots) != []
    decreases |jobs| - from
  {
    if !ShouldExecute(g, jobs, from) {
      ReadyNonEmpty(g, jobs, from + 1, j, slots);
    }
  }

  const TWO_JOBS := Graph([{}, {}], [0, 1], 1)
  const WAITING := JobStatus(NotStarted, false, false, 0)
  const STARTED := JobStatus(Running, true, true, 1)
  const FAILED := JobStatus(ErrorExited, true, false, 1)
  const FIRST_STARTED := System([STARTED, WAITING], {0}, Run, Pending, Awaiting)
  const FIRST_FAILED := System([FAILED, WAITING], {0}, Run, Pending, Awaiting)

  lemma ExecuteSingle(s: System, i: nat)
    requires i < |s.jobs|
    ensures ExecuteAll(s, [i]) == ExecuteOne(s, i)
  {
    assert [i][1..] == [];
  }

  lemma TwoJobsValid()
    ensures TWO_JOBS.Valid() && Initial(TWO_JOBS).jobs == [WAITING, WAITING]
  {
  }

  lemma FirstIsReady()
    requires TWO_JOBS.Valid()
    ensures Ready(TWO_JOBS, [WAITING, WAITING], 1) == [0]
  {
    assert ShouldExecute(TWO_JOBS, [WAITING, WAITING], 0);
    assert Schedule(TWO_JOBS, [WAITING, WAITING], 1, 0) == [];
  }

  lemma FirstJobStarts()
    ensures TWO_JOBS.Valid() && Apply(TWO_JOBS, Initial(TWO_JOBS), Start) == FIRST_STARTED
  {
    TwoJobsValid();
    FirstIsReady();
    hide Ready, ExecuteAll;
    var s := Initial(TWO_JOBS).(startup := Awaiting, phase := Run);
    assert !IsStarted(s.jobs[0]);
    ExecuteSingle(s, 0);
    assert [STARTED, WAITING] == s.jobs[0 := STARTED];
  }

  lemma SecondIsReady()
    requires TWO_JOBS.Valid()
    ensures Ready(TWO_JOBS, [FAILED.(event := false), WAITING], 1) == [1]
  {
    var jobs := [FAILED.(event := false), WAITING];
    assert ShouldExecute(TWO_JOBS, jobs, 1) && !ShouldExecute(TWO_JOBS, jobs, 0);
    assert Schedule(TWO_JOBS, jobs, 2, 0) == [];
    assert Schedule(TWO_JOBS, jobs, 1, 1) == [1];
  }

  lemma SecondJobStarts()
    requires TWO_JOBS.Valid()
    ensures Apply(TWO_JOBS, FIRST_FAILED, Event(0)).jobs[1] == STARTED
  {
    SecondIsReady();
    hide Ready, ExecuteAll;
    var heard := CheckRemoveWorking(Heard(TWO_JOBS, FIRST_FAILED, 0), 0);
    assert heard.working == {} && heard.phase == Run && heard.jobs == [FAILED.(event := false), WAITING];
    assert !IsStarted(heard.jobs[1]);
    ExecuteSingle(heard, 1);
  }

  /** Two independent jobs, one slot: the failure of the first one starts the second. */
  lemma FatalEventMayStartAJob()
    ensures TWO_JOBS.Valid()
    ensures Reached(TWO_JOBS, [Start, Return(0, false)]) == FIRST_FAILED
    ensures IsFatalError(FIRST_FAILED.jobs[0]) && Enabled(TWO_JOBS, FIRST_FAILED, Event(0))
    ensures FIRST_FAILED.jobs[1].state == NotStarted
    ensures Apply(TWO_JOBS, FIRST_FAILED, Event(0)).jobs[1].state == Running
  {
    FirstJobStarts();
    SecondJobStarts();
    hide Pump, Deliver, Initial;
    assert Next(TWO_JOBS, Initial(TWO_JOBS), Start) == FIRST_STARTED;
    assert Next(TWO_JOBS, FIRST_STARTED, Return(0, false)) == FIRST_FAILED;
    assert After(TWO_JOBS, FIRST_STARTED, [Return(0, false)]) == FIRST_FAILED;
    assert [Start, Return(0, false)][1..] == [Return(0, false)];
  }
}
