/**
 The scheduler as it runs: job objects, and the job graph with its starter, changed in place.
 Every method is proved to take the step of `JobGraphModel` that it stands for.
 */
module JobGraph {
  import opened JobGraphModel

  /** One step of the search for jobs that may start. */
  lemma ScheduleFrom(g: Graph, jobs: seq<JobStatus>, from: nat, slots: nat)
    requires g.Valid() && |jobs| == |g.deps| && from <= |jobs|
    ensures Schedule(g, jobs, from, slots) ==
      if from == |jobs| || slots == 0 then []
      else if ShouldExecute(g, jobs, from) then [from] + Schedule(g, jobs, from + 1, slots - 1)
      else Schedule(g, jobs, from + 1, slots)
  {
    hide ShouldExecute;
  }

  lemma AppendOne(list: seq<nat>, i: nat, rest: seq<nat>)
    ensures list + ([i] + rest) == list + [i] + rest
  {
  }

  lemma ExecuteFirst(s: System, schedule: seq<nat>)
    requires schedule != [] && forall k :: 0 <= k < |schedule| ==> schedule[k] < |s.jobs|
    ensures ExecuteAll(s, schedule) == ExecuteAll(ExecuteOne(s, schedule[0]), schedule[1..])
  {
  }

  lemma ExecuteNone(s: System)
    ensures ExecuteAll(s, []) == s
  {
  }

  class Job {
    var state: JobState
    var immediate: bool
    var executing: bool
    ghost var executions: nat

    constructor ()
      ensures Status() == JobStatus(NotStarted, false, false, 0)
    {
      state, immediate, executing, executions := NotStarted, false, false, 0;
    }

    ghost function Status(): JobStatus
      reads this
    {
      JobStatus(state, immediate, executing, executions)
    }

    /** Replaces a scheduled event by a new one. */
    method PublishStateEvent()
      modifies this
      ensures Status() == old(Status()).(event := true)
    {
      immediate := true;
    }

    /** Setting the present state again publishes nothing. */
    method SetState(next: JobState)
      modifies this
      ensures Status() == old(Status()).(state := next, event := old(Status().event) || old(Status().state) != next)
    {
      if state != next {
        state := next;
        PublishStateEvent();
      }
    }

    /** Refuses a job that has started; otherwise enters `_execute`. */
    method Execute() returns (ok: bool)
      modifies this
      ensures ok == !IsStarted(old(Status()))
      ensures Status() == if ok then Executed(old(Status())) else old(Status())
    {
      ok := state == NotStarted;
      if ok {
        SetState(Running);
        executing := true;
        executions := executions + 1;
      }
    }

    /** The end of `_execute`, by return or by exception. */
    method FinishExecute(ok: bool)
      requires executing && IsStarted(Status()) && (state == SuccessExited ==> ok)
      modifies this
      ensures Status() == Returned(old(Status()), ok)
    {
      executing := false;
      if state == Running {
        SetState(if ok then SuccessExited else ErrorExited);
      } else if ok {
        PublishStateEvent();
      }
    }
  }

  class JobGraph {
    const graph: Graph
    const jobs: seq<Job>
    var working: set<nat>
    var phase: Phase
    var promise: Promise
    var startup: Startup

    ghost predicate Valid()
    {
      && graph.Valid()
      && |jobs| == |graph.deps|
      && (forall i, j :: 0 <= i < j < |jobs| ==> jobs[i] != jobs[j])
    }

    ghost function Statuses(): (s: seq<JobStatus>)
      reads jobs
      ensures |s| == |jobs| && forall i :: 0 <= i < |s| ==> s[i] == jobs[i].Status()
    {
      seq(|jobs|, i requires 0 <= i < |jobs| reads jobs => jobs[i].Status())
    }

    ghost function Model(): System
      reads this, jobs
    {
      System(Statuses(), working, phase, promise, startup)
    }

    constructor (graph: Graph, jobs: seq<Job>)
      requires graph.Valid() && |jobs| == |graph.deps|
      requires forall i, j :: 0 <= i < j < |jobs| ==> jobs[i] != jobs[j]
      requires forall i :: 0 <= i < |jobs| ==> jobs[i].Status() == JobStatus(NotStarted, false, false, 0)
      ensures Valid() && Model() == Initial(graph)
    {
      this.graph, this.jobs := graph, jobs;
      working, phase, promise, startup := {}, Pre, Pending, NotCalled;
    }

    /** All dependencies must be non-blocking, and the job not yet started. */
    method ShouldExecuteNode(i: nat) returns (should: bool)
      requires Valid() && i < |jobs|
      ensures should == ShouldExecute(graph, Model().jobs, i)
    {
      if jobs[i].state != NotStarted {
        return false;
      }
      var rest := graph.deps[i];
      while rest != {}
        invariant rest <= graph.deps[i]
        invariant forall d :: d in graph.deps[i] - rest ==> !IsBlocking(Model().jobs[d])
      {
        var d :| d in rest;
        if jobs[d].state != SuccessExited {
          return false;
        }
        rest := rest - {d};
      }
      return true;
    }

    method CountNotStarted() returns (notStart: nat)
      requires Valid()
      ensures notStart == 0 <==> AllStarted(Model().jobs)
    {
      notStart := 0;
      for k := 0 to |graph.nodes|
        invariant notStart == 0 <==> forall j :: 0 <= j < k ==> IsStarted(Model().jobs[graph.nodes[j]])
      {
        if jobs[graph.nodes[k]].state == NotStarted {
          notStart := notStart + 1;
        }
      }
      if notStart == 0 {
        forall i | 0 <= i < |jobs| ensures IsStarted(Model().jobs[i]) {
          assert i in graph.nodes;
        }
      }
    }

    /** Collects, in the overall order, the jobs that may start, until the slots are used up. */
    method CollectSchedule(remainingSlots: nat) returns (schedule: seq<nat>)
      requires Valid() && remainingSlots > 0
      ensures schedule == Ready(graph, Model().jobs, remainingSlots)
    {
      hide ShouldExecute, Schedule;
      schedule := [];
      ghost var now := Model().jobs;
      for i := 0 to |jobs|
        invariant |schedule| < remainingSlots
        invariant schedule + Schedule(graph, now, i, remainingSlots - |schedule|) == Ready(graph, now, remainingSlots)
      {
        ScheduleFrom(graph, now, i, remainingSlots - |schedule|);
        var should := ShouldExecuteNode(i);
        if should {
          AppendOne(schedule, i, Schedule(graph, now, i + 1, remainingSlots - |schedule| - 1));
          schedule := schedule + [i];
        }
        if |schedule| >= remainingSlots {
          ScheduleFrom(graph, now, i + 1, 0);
          return;
        }
      }
      ScheduleFrom(graph, now, |jobs|, remainingSlots - |schedule|);
    }

    method ExecuteNode(i: nat)
      requires Valid() && i < |jobs| && !IsStarted(jobs[i].Status())
      modifies this`working, jobs
      ensures Model() == ExecuteOne(old(Model()), i)
    {
      var ok := jobs[i].Execute();
      working := working + {i};
      assert Statuses() == old(Statuses())[i := Executed(old(Statuses())[i])];
    }

    method ExecuteSchedule(schedule: seq<nat>)
      requires Valid() && Executable(graph, Model().jobs, schedule) && Increasing(schedule)
      modifies this`working, jobs
      ensures Model() == ExecuteAll(old(Model()), schedule)
    {
      hide ExecuteAll, Executed;
      for k := 0 to |schedule|
        invariant forall l :: k <= l < |schedule| ==> schedule[l] < |jobs| && !IsStarted(Model().jobs[schedule[l]])
        invariant ExecuteAll(Model(), schedule[k..]) == ExecuteAll(old(Model()), schedule)
      {
        ghost var now := Model();
        ExecuteNode(schedule[k]);
        ExecuteFirst(now, schedule[k..]);
        assert schedule[k..][0] == schedule[k] && schedule[k..][1..] == schedule[k + 1..];
      }
      ExecuteNone(Model());
    }

    /** The end of the start-up is tested first; a free slot never counts for more than one job. */
    method Pump()
      requires Valid()
      modifies this, jobs
      ensures Model() == JobGraphModel.Pump(graph, old(Model()))
    {
      if phase == Post {
        return;
      }
      if phase == Pre {
        phase := Run;
      }
      var notStart := CountNotStarted();
      if notStart == 0 && working == {} {
        promise := promise.Resolve();
        Dispose();
        return;
      }
      FillSlots();
    }

    /** The second half of `pump()`: runs what fits into the remaining slots. */
    method FillSlots()
      requires Valid()
      modifies this`working, jobs
      ensures Model() == StartReady(graph, old(Model()))
    {
      var remainingSlots := graph.concurrency - |working|;
      if remainingSlots <= 0 {
        return;
      }
      var schedule := CollectSchedule(remainingSlots);
      ScheduleIsExecutable(graph, Model().jobs, 0, remainingSlots);
      ScheduleIsIncreasing(graph, Model().jobs, 0, remainingSlots);
      ExecuteSchedule(schedule);
    }

    /** The starter's dispose: it hears no more events and never pumps again. */
    method Dispose()
      modifies this`phase
      ensures Model() == old(Model()).(phase := Post)
    {
      phase := Post;
    }

    method CheckRemoveWorking(i: nat)
      requires Valid() && i < |jobs|
      modifies this`working, this`promise
      ensures Model() == JobGraphModel.CheckRemoveWorking(old(Model()), i)
    {
      if jobs[i].state == Running {
        working := working + {i};
      } else {
        working := working - {i};
      }
      if jobs[i].state == ErrorExited {
        promise := promise.Reject();
      }
    }

    /** The graph's own listener: a fatal error stops the graph, which disposes the starter. */
    method OnNodeChange(i: nat)
      requires Valid() && i < |jobs|
      modifies this`phase
      ensures Model() == StopOnFatal(old(Model()), i)
    {
      if jobs[i].state == ErrorExited {
        Dispose();
      }
    }

    /** The scheduled event of job `i` fires: the latest registered listener hears it first. */
    method FireStateEvent(i: nat)
      requires Valid() && i < |jobs|
      modifies this, jobs
      ensures Model() == Deliver(graph, old(Model()), i)
    {
      ghost var before := Model();
      jobs[i].immediate := false;
      assert Statuses() == before.jobs[i := before.jobs[i].(event := false)];
      if startup.WaitingFor? && startup.at < |graph.nodes| && graph.nodes[startup.at] == i
         && (jobs[i].state == SuccessExited || jobs[i].state == ErrorExited) {
        startup := Joining(startup.at + 1);
      }
      assert Model() == Heard(graph, before, i);
      if phase != Post {
        CheckRemoveWorking(i);
        Pump();
        OnNodeChange(i);
      }
    }

    method Startup()
      requires Valid() && startup == NotCalled
      modifies this, jobs
      ensures Model() == Apply(graph, old(Model()), Start)
    {
      startup := Awaiting;
      Pump();
    }

    /** `startup()` after its `await`: a rejection joins the nodes, in registration order. */
    method ContinueStartup()
      requires Valid() && Enabled(graph, Model(), Resume)
      modifies this`startup
      ensures Model() == Apply(graph, old(Model()), Resume)
    {
      match startup
      case Awaiting =>
        startup := if promise == Fulfilled then Resolved else Joining(0);
      case Joining(k) =>
        if k >= |graph.nodes| {
          startup := Threw;
        } else if jobs[graph.nodes[k]].state in {NotStarted, SuccessExited, ErrorExited} {
          startup := Joining(k + 1);
        } else {
          startup := WaitingFor(k);
        }
    }
  }
}
