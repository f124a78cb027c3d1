/**
 Safety of the scheduler: what holds in every state of every run.
 */
module JobGraphSafety {
  import opened JobGraphModel

  /******* The invariant *******/

  ghost predicate JobOk(job: JobStatus) {
    && (job.state == NotStarted ==> !job.event && !job.executing && job.executions == 0)
    && (job.state != NotStarted ==> job.executions == 1)
    && (job.state == Running ==> job.executing)
  }

  ghost predicate DependenciesDone(g: Graph, jobs: seq<JobStatus>)
    requires g.Valid() && |jobs| == |g.deps|
  {
    forall i, d :: 0 <= i < |jobs| && IsStarted(jobs[i]) && d in g.deps[i] ==> jobs[d].state == SuccessExited
  }

  ghost predicate AllSucceeded(jobs: seq<JobStatus>) {
    forall i :: 0 <= i < |jobs| ==> jobs[i].state == SuccessExited
  }

  ghost predicate SomeFailed(jobs: seq<JobStatus>) {
    exists i :: 0 <= i < |jobs| && jobs[i].state == ErrorExited
  }

  function Slots(g: Graph): nat { if g.concurrency < 0 then 0 else g.concurrency }

  /** The jobs at work: the running ones, and none without an event to come while the starter listens. */
  ghost predicate WorkingOk(g: Graph, s: System) {
    && (forall i :: i in s.working ==> i < |s.jobs|)
    && |s.working| <= Slots(g)
    && (forall i :: 0 <= i < |s.jobs| && s.jobs[i].state == Running ==> i in s.working)
    && (s.phase != Post ==>
          forall i :: i in s.working ==> i < |s.jobs| && (s.jobs[i].state == Running || s.jobs[i].event))
  }

  /** What the starter's promise says of the jobs. */
  ghost predicate PromiseOk(s: System) {
    && (s.phase != Post && s.promise == Pending ==>
          forall i :: 0 <= i < |s.jobs| && s.jobs[i].state == ErrorExited ==> s.jobs[i].event && i in s.working)
    && (s.promise == Fulfilled ==> s.phase == Post && AllSucceeded(s.jobs))
    && (s.promise == Rejected ==> SomeFailed(s.jobs))
  }

  /** What holds even between the listeners of one event. */
  ghost predicate Core(g: Graph, s: System) {
    && g.Valid()
    && |s.jobs| == |g.deps|
    && (forall i :: 0 <= i < |s.jobs| ==> JobOk(s.jobs[i]))
    && DependenciesDone(g, s.jobs)
    && WorkingOk(g, s)
    && PromiseOk(s)
  }

  /** Once `startup()` has joined a node, that node never runs again. */
  ghost predicate JoinOk(g: Graph, s: System)
    requires g.Valid() && |s.jobs| == |g.deps|
  {
    match s.startup
    case NotCalled => s.phase == Pre
    case Awaiting => s.phase != Pre
    case Joining(k) => s.promise == Rejected && Joined(g, s.jobs, k)
    case WaitingFor(k) =>
      && s.promise == Rejected && Joined(g, s.jobs, k)
      && k < |g.nodes| && (s.jobs[g.nodes[k]].state == Running || s.jobs[g.nodes[k]].event)
    case Resolved => s.promise == Fulfilled
    case Threw => s.promise == Rejected && Joined(g, s.jobs, |g.nodes|)
  }

  ghost predicate Joined(g: Graph, jobs: seq<JobStatus>, k: nat)
    requires g.Valid() && |jobs| == |g.deps|
  {
    k <= |g.nodes| && forall j :: 0 <= j < k ==> jobs[g.nodes[j]].state != Running
  }

  /** What holds between any two steps. */
  ghost predicate Inv(g: Graph, s: System) {
    && Core(g, s)
    && (s.phase == Post <==> s.promise != Pending)
    && (s.phase == Pre ==> s == Initial(g))
    && (s.phase == Run ==> |s.jobs| > 0 && (g.concurrency >= 1 ==> s.working != {}))
    && JoinOk(g, s)
  }

  /******* One pump *******/

  lemma {:induction false} ExecuteAllEffect(s: System, q: seq<nat>)
    requires Increasing(q) && forall k :: 0 <= k < |q| ==> q[k] < |s.jobs|
    ensures var t := ExecuteAll(s, q);
            && t == s.(jobs := t.jobs, working := t.working)
            && (forall i :: i in t.working <==> i in s.working || i in q)
            && |t.working| <= |s.working| + |q|
            && (forall i :: 0 <= i < |s.jobs| ==> t.jobs[i] == if i in q then Executed(s.jobs[i]) else s.jobs[i])
    decreases |q|
  {
    if q != [] {
      ExecuteAllEffect(ExecuteOne(s, q[0]), q[1..]);
      assert q == [q[0]] + q[1..];
    }
  }

  /** If no job runs or has failed, some unstarted job has all its dependencies done. */
  lemma {:induction false} FirstUnstarted(g: Graph, jobs: seq<JobStatus>, from: nat, slots: nat)
    requires g.Valid() && |jobs| == |g.deps| && from <= |jobs| && slots > 0
    requires forall i :: 0 <= i < |jobs| ==> jobs[i].state == NotStarted || jobs[i].state == SuccessExited
    requires forall i :: 0 <= i < from ==> IsStarted(jobs[i])
    requires !AllStarted(jobs)
    ensures Schedule(g, jobs, from, slots) != []
    decreases |jobs| - from
  {
    if from < |jobs| && IsStarted(jobs[from]) {
      FirstUnstarted(g, jobs, from + 1, slots);
    }
  }

  /** `t` is `s` with some executable jobs started and recorded as working. */
  ghost predicate StartsSome(g: Graph, s: System, t: System)
    requires g.Valid() && |s.jobs| == |g.deps|
  {
    && t == s.(jobs := t.jobs, working := t.working)
    && |t.jobs| == |s.jobs|
    && |t.working| <= Slots(g)
    && (forall i :: 0 <= i < |s.jobs| ==>
          t.jobs[i] == s.jobs[i] || (ShouldExecute(g, s.jobs, i) && t.jobs[i] == Executed(s.jobs[i])))
    && (forall i: nat :: i in t.working <==> i in s.working || (i < |s.jobs| && t.jobs[i] != s.jobs[i]))
  }

  lemma StartingKeepsCore(g: Graph, s: System, t: System)
    requires Core(g, s) && s.phase != Post && StartsSome(g, s, t)
    ensures Core(g, t)
  {
    if s.promise == Rejected {
      var j :| 0 <= j < |s.jobs| && s.jobs[j].state == ErrorExited;
      assert t.jobs[j].state == ErrorExited;
    }
  }

  lemma StartReadyStartsSome(g: Graph, s: System)
    requires g.Valid() && |s.jobs| == |g.deps| && |s.working| <= Slots(g)
    ensures StartsSome(g, s, StartReady(g, s))
  {
    hide Schedule, ExecuteAll, ShouldExecute;
    var slots := g.concurrency - |s.working|;
    if slots > 0 {
      var q := Ready(g, s.jobs, slots);
      ScheduleIsExecutable(g, s.jobs, 0, slots);
      ScheduleIsIncreasing(g, s.jobs, 0, slots);
      ExecuteAllEffect(s, q);
    }
  }

  lemma StartReadyStartsFirst(g: Graph, s: System)
    requires g.Valid() && |s.jobs| == |g.deps| && |s.working| < Slots(g)
    requires Ready(g, s.jobs, g.concurrency - |s.working|) != []
    ensures var first := Ready(g, s.jobs, g.concurrency - |s.working|)[0];
            ShouldExecute(g, s.jobs, first) && StartReady(g, s).jobs[first] == Executed(s.jobs[first])
            && first in StartReady(g, s).working
  {
    var slots := g.concurrency - |s.working|;
    ScheduleIsExecutable(g, s.jobs, 0, slots);
    ScheduleIsIncreasing(g, s.jobs, 0, slots);
    ExecuteAllEffect(s, Ready(g, s.jobs, slots));
  }

  lemma PumpStartsOne(g: Graph, s: System)
    requires Core(g, s) && s.phase != Post && s.working == {} && s.promise == Pending && g.concurrency >= 1
    requires !AllStarted(s.jobs)
    ensures StartReady(g, s).working != {}
  {
    FirstUnstarted(g, s.jobs, 0, g.concurrency);
    StartReadyStartsFirst(g, s);
  }

  /** The state a pump leaves behind, from the state it found. */
  ghost predicate Pumped(g: Graph, s: System, t: System) {
    && Core(g, t)
    && t.startup == s.startup
    && t.phase != Pre
    && (t.phase == Post ==> t.promise != Pending)
    && (t.phase == Run ==> t.promise == s.promise)
    && (s.promise == Rejected ==> t.promise == Rejected)
    && (t.phase == Run ==> |t.jobs| > 0 && (s.promise == Pending && g.concurrency >= 1 ==> t.working != {}))
    && |t.jobs| == |s.jobs|
    && (forall i :: 0 <= i < |s.jobs| ==>
          t.jobs[i] == s.jobs[i] || (s.jobs[i].state == NotStarted && t.jobs[i] == Executed(s.jobs[i])))
  }

  lemma PumpKeepsCore(g: Graph, s: System)
    requires Core(g, s) && s.phase != Post
    ensures Pumped(g, s, Pump(g, s))
  {
    if AllStarted(s.jobs) && s.working == {} {
    } else {
      var r := s.(phase := Run);
      StartReadyStartsSome(g, r);
      StartingKeepsCore(g, r, StartReady(g, r));
      if s.working == {} && s.promise == Pending && g.concurrency >= 1 {
        PumpStartsOne(g, r);
      }
    }
  }

  /******* Every step keeps the invariant *******/

  lemma SameStatesSameDependencies(g: Graph, jobs: seq<JobStatus>, later: seq<JobStatus>)
    requires g.Valid() && |jobs| == |later| == |g.deps| && DependenciesDone(g, jobs)
    requires forall j :: 0 <= j < |jobs| ==> later[j].state == jobs[j].state
    ensures DependenciesDone(g, later)
  {
  }

  lemma HearingKeepsCore(g: Graph, s: System, i: nat)
    requires Inv(g, s) && s.phase != Post && i < |s.jobs| && s.jobs[i].event
    ensures var t := CheckRemoveWorking(Heard(g, s, i), i);
            && Core(g, t)
            && t.phase == s.phase
            && t.startup == s.startup == Awaiting
            && t.jobs[i].state == s.jobs[i].state
            && t.promise == (if s.jobs[i].state == ErrorExited then Rejected else Pending)
  {
    hide DependenciesDone, WakeStartup, JoinOk, WorkingOk, PromiseOk;
    var t := CheckRemoveWorking(Heard(g, s, i), i);
    AwaitingStays(g, s, i);
    SameStatesSameDependencies(g, s.jobs, t.jobs);
    HearingKeepsWorking(g, s, i);
    HearingKeepsPromise(g, s, i);
  }

  lemma HearingKeepsWorking(g: Graph, s: System, i: nat)
    requires WorkingOk(g, s) && s.phase != Post && i < |s.jobs|
    ensures WorkingOk(g, CheckRemoveWorking(Heard(g, s, i), i))
  {
    assert s.jobs[i].state == Running ==> i in s.working;
    hide WorkingOk, WakeStartup;
    HearingFreesSlots(g, s, i);
    WorkingWithout(g, s, CheckRemoveWorking(Heard(g, s, i), i), i);
  }

  lemma WorkingWithout(g: Graph, s: System, t: System, i: nat)
    requires WorkingOk(g, s) && s.phase != Post && i < |s.jobs| && t.phase == s.phase
    requires t.jobs == s.jobs[i := s.jobs[i].(event := false)] && |t.working| <= |s.working|
    requires t.working == if s.jobs[i].state == Running then s.working else s.working - {i}
    ensures WorkingOk(g, t)
  {
  }

  lemma HearingKeepsPromise(g: Graph, s: System, i: nat)
    requires PromiseOk(s) && s.phase != Post && s.promise == Pending && i < |s.jobs|
    ensures var t := CheckRemoveWorking(Heard(g, s, i), i);
      PromiseOk(t) && t.promise == (if s.jobs[i].state == ErrorExited then Rejected else Pending)
  {
    var t := CheckRemoveWorking(Heard(g, s, i), i);
    if s.jobs[i].state == ErrorExited {
      assert t.jobs[i].state == ErrorExited;
    }
  }

  lemma HearingFreesSlots(g: Graph, s: System, i: nat)
    requires i < |s.jobs| && (s.jobs[i].state == Running ==> i in s.working)
    ensures var t := CheckRemoveWorking(Heard(g, s, i), i);
      |t.working| <= |s.working| && t.working == if s.jobs[i].state == Running then s.working else s.working - {i}
  {
    if s.jobs[i].state == Running {
      assert s.working + {i} == s.working;
    } else if i in s.working {
      assert s.working == (s.working - {i}) + {i};
    } else {
      assert s.working - {i} == s.working;
    }
  }

  lemma AwaitingStays(g: Graph, s: System, i: nat)
    requires Inv(g, s) && s.phase != Post && i < |s.jobs| && s.jobs[i].event
    ensures WakeStartup(g, s, i) == s.startup == Awaiting
  {
  }

  /** A pump starts nothing that `startup()` has joined, since it joins only after the end. */
  lemma PumpKeepsJoin(g: Graph, s: System, t: System)
    requires Pumped(g, s, t) && |s.jobs| == |g.deps| && s.startup == Awaiting
    ensures JoinOk(g, t)
  {
  }

  /** The same states, and no event lost while the starter listens. */
  ghost predicate SameStates(s: System, t: System) {
    && |t.jobs| == |s.jobs| && t.working == s.working && t.phase == s.phase && t.promise == s.promise
    && (forall j :: 0 <= j < |s.jobs| ==> t.jobs[j].state == s.jobs[j].state)
    && (s.phase != Post ==> forall j :: 0 <= j < |s.jobs| && s.jobs[j].event ==> t.jobs[j].event)
  }

  lemma SameStatesSamePromise(s: System, t: System)
    requires PromiseOk(s) && SameStates(s, t)
    ensures PromiseOk(t)
  {
    if s.promise == Rejected {
      var j :| 0 <= j < |s.jobs| && s.jobs[j].state == ErrorExited;
      assert t.jobs[j].state == ErrorExited;
    }
  }

  lemma SameStatesKeepCore(g: Graph, s: System, t: System)
    requires Core(g, s) && SameStates(s, t) && forall j :: 0 <= j < |t.jobs| ==> JobOk(t.jobs[j])
    ensures Core(g, t)
  {
    SameStatesSameDependencies(g, s.jobs, t.jobs);
    SameStatesSamePromise(s, t);
    hide DependenciesDone, PromiseOk, JobOk;
  }

  lemma LateEventKeepsJoin(g: Graph, s: System, i: nat)
    requires g.Valid() && |s.jobs| == |g.deps| && JoinOk(g, s) && i < |s.jobs| && s.phase == Post
    requires JobOk(s.jobs[i]) && s.jobs[i].event
    ensures JoinOk(g, Heard(g, s, i))
  {
  }

  lemma LateEventKeepsInv(g: Graph, s: System, i: nat)
    requires Inv(g, s) && s.phase == Post && i < |s.jobs| && s.jobs[i].event
    ensures Inv(g, Deliver(g, s, i))
  {
    var t := Deliver(g, s, i);
    LateEventKeepsJoin(g, s, i);
    assert forall j :: 0 <= j < |t.jobs| ==> JobOk(t.jobs[j]) by {
      assert forall j :: 0 <= j < |s.jobs| ==> JobOk(s.jobs[j]);
    }
    SameStatesKeepCore(g, s, t);
    hide Core, JoinOk;
  }

  lemma EventKeepsInv(g: Graph, s: System, i: nat)
    requires Inv(g, s) && i < |s.jobs| && s.jobs[i].event
    ensures Inv(g, Deliver(g, s, i))
  {
    if s.phase == Post {
      LateEventKeepsInv(g, s, i);
    } else {
      var heard := CheckRemoveWorking(Heard(g, s, i), i);
      HearingKeepsCore(g, s, i);
      PumpKeepsCore(g, heard);
      PumpKeepsJoin(g, heard, Pump(g, heard));
      StoppingKeepsInv(g, s, i, heard, Pump(g, heard));
    }
  }

  /** The pump is over; the graph stops if and only if job `i` has failed. */
  lemma StoppingKeepsInv(g: Graph, s: System, i: nat, heard: System, t: System)
    requires |s.jobs| == |heard.jobs| && i < |s.jobs| && Pumped(g, heard, t) && JoinOk(g, t)
    requires heard.startup == Awaiting
    requires heard.promise == (if heard.jobs[i].state == ErrorExited then Rejected else Pending)
    ensures Inv(g, StopOnFatal(t, i))
  {
    if IsFatalError(t.jobs[i]) {
      assert JoinOk(g, StopOnFatal(t, i));
    }
  }

  lemma ExitKeepsInv(g: Graph, s: System, i: nat, job: JobStatus)
    requires Inv(g, s) && i < |s.jobs|
    requires s.jobs[i].state == Running
      && job == s.jobs[i].(state := job.state, event := true, executing := job.executing)
    requires IsStopped(job)
    ensures Inv(g, s.(jobs := s.jobs[i := job]))
  {
    var t := s.(jobs := s.jobs[i := job]);
    assert DependenciesDone(g, t.jobs);
    if s.promise == Rejected {
      var j :| 0 <= j < |s.jobs| && s.jobs[j].state == ErrorExited;
      assert t.jobs[j].state == ErrorExited;
    }
  }

  lemma LateReturnKeepsJoin(g: Graph, s: System, t: System)
    requires g.Valid() && |s.jobs| == |g.deps| && JoinOk(g, s) && |t.jobs| == |s.jobs| && t == s.(jobs := t.jobs)
    requires forall j :: 0 <= j < |s.jobs| ==>
      t.jobs[j].state == s.jobs[j].state && (s.jobs[j].event ==> t.jobs[j].event)
    ensures JoinOk(g, t)
  {
  }

  lemma ReturnKeepsInv(g: Graph, s: System, i: nat, ok: bool)
    requires Inv(g, s) && Enabled(g, s, Return(i, ok))
    ensures Inv(g, Apply(g, s, Return(i, ok)))
  {
    var t := s.(jobs := s.jobs[i := Returned(s.jobs[i], ok)]);
    if s.jobs[i].state == Running {
      ExitKeepsInv(g, s, i, Returned(s.jobs[i], ok));
    } else {
      LateReturnKeepsJoin(g, s, t);
      assert forall j :: 0 <= j < |t.jobs| ==> JobOk(t.jobs[j]) by {
        assert forall j :: 0 <= j < |s.jobs| ==> JobOk(s.jobs[j]);
      }
      SameStatesKeepCore(g, s, t);
      hide Core, JoinOk;
      assert s.phase != Pre;
    }
  }

  lemma StartupKeepsCore(g: Graph, s: System, startup: Startup)
    requires Core(g, s)
    ensures Core(g, s.(startup := startup))
  {
  }

  lemma ResumeKeepsInv(g: Graph, s: System)
    requires Inv(g, s) && Enabled(g, s, Resume)
    ensures Inv(g, s.(startup := ResumeStartup(g, s)))
  {
    StartupKeepsCore(g, s, ResumeStartup(g, s));
    hide DependenciesDone, WorkingOk, PromiseOk, JobOk;
  }

  lemma StartKeepsInv(g: Graph, s: System)
    requires Inv(g, s) && Enabled(g, s, Start)
    ensures Inv(g, Pump(g, s.(startup := Awaiting)))
  {
    var called := s.(startup := Awaiting);
    StartupKeepsCore(g, s, Awaiting);
    PumpKeepsCore(g, called);
    PumpKeepsJoin(g, called, Pump(g, called));
    hide Core, JoinOk, Pump;
    assert called.phase == Pre && called.promise == Pending;
  }

  lemma StepKeepsInv(g: Graph, s: System, step: Step)
    requires Inv(g, s) && Enabled(g, s, step)
    ensures Inv(g, Apply(g, s, step))
  {
    hide Core, JoinOk, Pump, Deliver, Returned, ResumeStartup;
    match step
    case Start => StartKeepsInv(g, s);
    case ExitInside(i, ok) => ExitKeepsInv(g, s, i, s.jobs[i].(state := Exit(ok), event := true));
    case Return(i, ok) => ReturnKeepsInv(g, s, i, ok);
    case Event(i) => EventKeepsInv(g, s, i);
    case Resume => ResumeKeepsInv(g, s);
  }
}
