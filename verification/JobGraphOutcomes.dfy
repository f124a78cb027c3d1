/**
 What became of a job, told from the steps of the run alone: how its `_execute` ended.
 */
module JobGraphOutcomes {
  import opened JobGraphModel
  import opened JobGraphSafety
  import opened JobGraphRuns
  import opened JobGraphProgress

  /** The step says of job `i` that it is over: inside its `_execute`, or by the end of that. */
  predicate Reports(step: Step, i: nat, ok: bool) {
    step == ExitInside(i, ok) || step == Return(i, ok)
  }

  /** Step `k` of the run finds job `i` running, and reports that it is over. */
  ghost predicate EndsJob(g: Graph, steps: seq<Step>, i: nat, k: nat, ok: bool)
    requires g.Valid() && i < |g.deps|
  {
    k < |steps| && Reports(steps[k], i, ok) && Reached(g, steps[..k]).jobs[i].state == Running
  }

  ghost predicate Ended(g: Graph, steps: seq<Step>, i: nat, ok: bool)
    requires g.Valid() && i < |g.deps|
  {
    exists k: nat :: EndsJob(g, steps, i, k, ok)
  }

  lemma {:induction false} AfterSnoc(g: Graph, s: System, steps: seq<Step>, step: Step)
    requires g.Valid() && |s.jobs| == |g.deps|
    ensures After(g, s, steps + [step]) == Next(g, After(g, s, steps), step)
    decreases |steps|
  {
    hide Next;
    if steps == [] {
      assert ([step])[1..] == [];
    } else {
      assert (steps + [step])[1..] == steps[1..] + [step];
      AfterSnoc(g, Next(g, s, steps[0]), steps[1..], step);
    }
  }

  /** What a step does to the state of job `i`. */
  ghost predicate MovesTo(s: System, step: Step, i: nat, t: System)
    requires i < |s.jobs| == |t.jobs|
  {
    match s.jobs[i].state
    case NotStarted => t.jobs[i].state in {NotStarted, Running}
    case Running =>
      if Reports(step, i, true) then t.jobs[i].state == SuccessExited
      else if Reports(step, i, false) then t.jobs[i].state == ErrorExited
      else t.jobs[i].state == Running
    case _ => t.jobs[i].state == s.jobs[i].state
  }

  lemma PumpMoves(g: Graph, s: System, i: nat)
    requires Core(g, s) && s.phase != Post && i < |s.jobs|
    ensures var t := Pump(g, s);
      t.jobs[i].state == s.jobs[i].state || (s.jobs[i].state == NotStarted && t.jobs[i].state == Running)
  {
    PumpKeepsCore(g, s);
    hide Pump, Core;
  }

  lemma EventMoves(g: Graph, s: System, e: nat, i: nat)
    requires Inv(g, s) && e < |s.jobs| && s.jobs[e].event && i < |s.jobs|
    ensures MovesTo(s, Event(e), i, Deliver(g, s, e))
  {
    hide Pump, Inv, Core, CheckRemoveWorking, WakeStartup;
    if s.phase != Post {
      var heard := CheckRemoveWorking(Heard(g, s, e), e);
      HearingKeepsCore(g, s, e);
      HearingKeepsStates(g, s, e);
      PumpMoves(g, heard, i);
    }
  }

  lemma StepMoves(g: Graph, s: System, step: Step, i: nat)
    requires Inv(g, s) && i < |s.jobs|
    ensures MovesTo(s, step, i, Next(g, s, step))
  {
    assert JobOk(s.jobs[i]);
    hide Core, JoinOk, Pump, Deliver, ResumeStartup;
    if Enabled(g, s, step) {
      match step
      case Start =>
        StartIsCore(g, s);
        PumpMoves(g, s.(startup := Awaiting), i);
      case Event(e) => EventMoves(g, s, e, i);
      case _ =>
    }
  }

  lemma EndsEarlier(g: Graph, steps: seq<Step>, step: Step, i: nat, ok: bool)
    requires g.Valid() && i < |g.deps|
    ensures Ended(g, steps + [step], i, ok) <==>
      Ended(g, steps, i, ok) || (Reports(step, i, ok) && Reached(g, steps).jobs[i].state == Running)
  {
    var all := steps + [step];
    assert all[..|steps|] == steps;
    assert forall k :: 0 <= k <= |steps| ==> all[..k] == steps[..k];
    if k: nat :| EndsJob(g, steps, i, k, ok) {
      assert EndsJob(g, all, i, k, ok);
    }
    if Reports(step, i, ok) && Reached(g, steps).jobs[i].state == Running {
      assert EndsJob(g, all, i, |steps|, ok);
    }
    if k: nat :| EndsJob(g, all, i, k, ok) {
      if k < |steps| {
        assert EndsJob(g, steps, i, k, ok);
      }
    }
  }

  /**
   In every run a job has succeeded exactly if a step that found it running reported success, and failed
   exactly if one reported failure.
   */
  lemma {:induction false} OutcomeIsAsReported(g: Graph, steps: seq<Step>, i: nat)
    requires g.Valid() && i < |g.deps|
    ensures Reached(g, steps).jobs[i].state == SuccessExited <==> Ended(g, steps, i, true)
    ensures Reached(g, steps).jobs[i].state == ErrorExited <==> Ended(g, steps, i, false)
    decreases |steps|
  {
    if steps != [] {
      var front, step := steps[..|steps| - 1], steps[|steps| - 1];
      assert steps == front + [step];
      OutcomeIsAsReported(g, front, i);
      AfterSnoc(g, Initial(g), front, step);
      ReachedInv(g, front);
      StepMoves(g, Reached(g, front), step, i);
      EndsEarlier(g, front, step, i, true);
      EndsEarlier(g, front, step, i, false);
      hide Ended, Inv, Next, After;
    }
  }

  /** There is only one such step for a job: the first. */
  lemma EndsOnce(g: Graph, steps: seq<Step>, i: nat, j: nat, k: nat, a: bool, b: bool)
    requires g.Valid() && i < |g.deps| && EndsJob(g, steps, i, j, a) && EndsJob(g, steps, i, k, b)
    ensures j == k && a == b
  {
    if j < k {
      assert steps[..k][..j] == steps[..j];
      assert EndsJob(g, steps[..k], i, j, a);
      OutcomeIsAsReported(g, steps[..k], i);
    } else if k < j {
      assert steps[..j][..k] == steps[..k];
      assert EndsJob(g, steps[..j], i, k, b);
      OutcomeIsAsReported(g, steps[..j], i);
    }
  }

  /** No step reports a failure. */
  predicate OnlySuccess(steps: seq<Step>) {
    forall k :: 0 <= k < |steps| && (steps[k].ExitInside? || steps[k].Return?) ==> steps[k].ok
  }

  /**
   A run that is over, with a slot or without jobs: `startup()` has returned, all jobs having succeeded,
   exactly if no step found a job running and reported failure; otherwise it has thrown.
   */
  lemma StartupIsAsReported(g: Graph, steps: seq<Step>)
    requires g.Valid() && Quiescent(g, Reached(g, steps)) && (g.concurrency >= 1 || |g.deps| == 0)
    ensures var s := Reached(g, steps);
            var failed := exists i: nat :: i < |g.deps| && Ended(g, steps, i, false);
      && (s.startup == Threw <==> failed)
      && (s.startup == Resolved <==> !failed)
      && (!failed ==> AllSucceeded(s.jobs))
      && (OnlySuccess(steps) ==> !failed)
  {
    hide Quiescent, After, Ended;
    StartupSettles(g, steps);
    var s := Reached(g, steps);
    forall i: nat | i < |g.deps|
      ensures s.jobs[i].state == ErrorExited <==> Ended(g, steps, i, false)
      ensures OnlySuccess(steps) ==> !Ended(g, steps, i, false)
    {
      OutcomeIsAsReported(g, steps, i);
      OnlySuccessEnds(g, steps, i);
    }
    assert s.startup == Threw <==> SomeFailed(s.jobs);
  }

  lemma OnlySuccessEnds(g: Graph, steps: seq<Step>, i: nat)
    requires g.Valid() && i < |g.deps|
    ensures OnlySuccess(steps) ==> !Ended(g, steps, i, false)
  {
  }

  /**
   The `_execute` of a running job may report either way and go on, or end either way; after a report it ends,
   once, but does not throw if it has reported success.
   */
  lemma MayEnd(g: Graph, steps: seq<Step>, i: nat, ok: bool, end: bool)
    requires g.Valid() && i < |g.deps| && Reached(g, steps).jobs[i].state == Running
    ensures Enabled(g, Reached(g, steps), ExitInside(i, ok)) && Enabled(g, Reached(g, steps), Return(i, ok))
    ensures Enabled(g, Reached(g, steps + [ExitInside(i, ok)]), Return(i, end)) <==> (ok ==> end)
    ensures !Enabled(g, Reached(g, steps + [Return(i, ok)]), Return(i, end))
  {
    hide After;
    ReachedInv(g, steps);
    assert JobOk(Reached(g, steps).jobs[i]);
    AfterSnoc(g, Initial(g), steps, ExitInside(i, ok));
    AfterSnoc(g, Initial(g), steps, Return(i, ok));
  }
}
