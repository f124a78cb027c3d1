/**
 The coalescing runner: calls made while EXEC runs are answered by a later run.  A run of the
 program is a sequence of steps: somebody calls, an EXEC ends, the loop that awaited it goes on.
 */
module QueuedLatest {
  import opened Wrappers

  datatype Outcome<T> = Fulfilled(value: T) | Rejected(error: string)

  /** One run of EXEC: how many calls had been made when it started, and when its loop went on. */
  datatype Exec<T> = Exec(startedAfter: nat, outcome: Option<Outcome<T>>, endedAfter: Option<nat>)

  /** The `caller`-th call got the outcome of the `exec`-th EXEC. */
  datatype Settlement<T> = Settlement(caller: nat, exec: nat, outcome: Outcome<T>)

  /** `running`, `queued` and `waiters` are the program's; the rest is what has happened so far. */
  datatype Runner<T> = Runner(running: bool, queued: nat, waiters: seq<nat>,
                              calls: nat, execs: seq<Exec<T>>, settlements: seq<Settlement<T>>)

  datatype Step<T> = Call | ExecEnds(exec: nat, outcome: Outcome<T>) | LoopGoesOn(exec: nat)

  function Initial<T>(): Runner<T> {
    Runner(false, 0, [], 0, [], [])
  }

  /** The head of the loop. */
  function StartExec<T>(r: Runner<T>): Runner<T> {
    r.(running := true, queued := 0, execs := r.execs + [Exec(r.calls, None, None)])
  }

  function Called<T>(r: Runner<T>): Runner<T> {
    var r := r.(waiters := r.waiters + [r.calls], calls := r.calls + 1);
    if r.running then r.(queued := r.queued + 1) else StartExec(r)
  }

  function SettleAll<T>(waiters: seq<nat>, exec: nat, outcome: Outcome<T>): (all: seq<Settlement<T>>)
    ensures |all| == |waiters|
    ensures forall k :: 0 <= k < |all| ==> all[k] == Settlement(waiters[k], exec, outcome)
  {
    seq(|waiters|, k requires 0 <= k < |waiters| => Settlement(waiters[k], exec, outcome))
  }

  /** What follows `await EXEC()`: again from the head, or everybody is settled. */
  function WentOn<T>(r: Runner<T>, e: nat): Runner<T>
    requires e < |r.execs| && r.execs[e].outcome.Some?
  {
    var ended := r.(execs := r.execs[e := r.execs[e].(endedAfter := Some(r.calls))]);
    if ended.queued > 0 then StartExec(ended)
    else ended.(waiters := [], running := false,
                settlements := ended.settlements + SettleAll(ended.waiters, e, r.execs[e].outcome.value))
  }

  predicate Enabled<T>(r: Runner<T>, step: Step<T>) {
    match step
    case Call => true
    case ExecEnds(e, _) => e < |r.execs| && r.execs[e].outcome.None?
    case LoopGoesOn(e) => e < |r.execs| && r.execs[e].outcome.Some? && r.execs[e].endedAfter.None?
  }

  function Next<T>(r: Runner<T>, step: Step<T>): Runner<T> {
    if !Enabled(r, step) then r else
      match step
      case Call => Called(r)
      case ExecEnds(e, outcome) => r.(execs := r.execs[e := r.execs[e].(outcome := Some(outcome))])
      case LoopGoesOn(e) => WentOn(r, e)
  }

  function After<T>(r: Runner<T>, steps: seq<Step<T>>): Runner<T> {
    if steps == [] then r else Next(After(r, steps[..|steps| - 1]), steps[|steps| - 1])
  }

  // ---------------------------------------------------------------- invariant

  predicate Active<T>(exec: Exec<T>) { exec.outcome.None? }

  predicate Over<T>(exec: Exec<T>) { exec.outcome.Some? && exec.endedAfter.Some? }

  /** All loops but that of the last EXEC are over, and that one exactly if nothing runs. */
  ghost predicate OneLoop<T>(r: Runner<T>) {
    && (forall e :: 0 <= e < |r.execs| - 1 ==> Over(r.execs[e]))
    && (if r.running then |r.execs| > 0 && r.execs[|r.execs| - 1].endedAfter.None?
        else |r.execs| > 0 ==> Over(r.execs[|r.execs| - 1]))
  }

  /** Each EXEC starts after more calls than the one before it. */
  ghost predicate CallsPayForExecs<T>(r: Runner<T>) {
    && (forall e :: 0 <= e < |r.execs| ==> e < r.execs[e].startedAfter <= r.calls)
    && (forall d, e :: 0 <= d < e < |r.execs| ==> r.execs[d].startedAfter < r.execs[e].startedAfter)
    && (r.running && |r.execs| > 0 ==> r.calls == r.execs[|r.execs| - 1].startedAfter + r.queued)
  }

  /** The callers settled so far, and then those waiting, are all callers in the order of their calls. */
  ghost predicate InOrder<T>(r: Runner<T>) {
    && |r.settlements| + |r.waiters| == r.calls
    && (forall k :: 0 <= k < |r.settlements| ==> r.settlements[k].caller == k)
    && (forall k :: 0 <= k < |r.waiters| ==> r.waiters[k] == |r.settlements| + k)
  }

  /** The outcome is that of an EXEC that started after the call and that no later call overlapped. */
  ghost predicate Fresh<T>(execs: seq<Exec<T>>, s: Settlement<T>) {
    && s.exec < |execs|
    && execs[s.exec].outcome == Some(s.outcome)
    && s.caller < execs[s.exec].startedAfter
    && execs[s.exec].endedAfter == Some(execs[s.exec].startedAfter)
  }

  /** `somebody` is settled by EXEC `e`, if it is the one whose call EXEC `e` started after. */
  ghost predicate Answered<T>(r: Runner<T>, e: nat)
    requires e < |r.execs|
  {
    r.execs[e].endedAfter == Some(r.execs[e].startedAfter) ==>
      0 < r.execs[e].startedAfter <= |r.settlements| && r.settlements[r.execs[e].startedAfter - 1].exec == e
  }

  ghost predicate Inv<T>(r: Runner<T>) {
    && OneLoop(r) && CallsPayForExecs(r) && InOrder(r)
    && (r.running <==> r.waiters != [])
    && (forall k :: 0 <= k < |r.settlements| ==> Fresh(r.execs, r.settlements[k]))
    && (forall e :: 0 <= e < |r.execs| ==> Answered(r, e))
  }

  lemma CallKeepsOrder<T>(r: Runner<T>)
    requires OneLoop(r) && CallsPayForExecs(r) && InOrder(r)
    ensures InOrder(Called(r)) && CallsPayForExecs(Called(r))
  {
    assert Called(r).waiters == r.waiters + [r.calls];
  }

  lemma CallKeepsLoop<T>(r: Runner<T>)
    requires OneLoop(r)
    ensures OneLoop(Called(r))
  {
  }

  lemma CallKeepsInv<T>(r: Runner<T>)
    requires Inv(r)
    ensures Inv(Called(r))
  {
    var s := Called(r);
    CallKeepsOrder(r);
    CallKeepsLoop(r);
    hide OneLoop, CallsPayForExecs, InOrder;
    forall e | 0 <= e < |s.execs| ensures Answered(s, e) {
      if e < |r.execs| {
        assert Answered(r, e);
      }
    }
    forall k | 0 <= k < |s.settlements| ensures Fresh(s.execs, s.settlements[k]) {
      assert Fresh(r.execs, r.settlements[k]);
    }
  }

  lemma EndKeepsOrder<T>(r: Runner<T>, e: nat, outcome: Outcome<T>)
    requires OneLoop(r) && CallsPayForExecs(r) && InOrder(r) && Enabled(r, ExecEnds(e, outcome))
    ensures var s := Next(r, ExecEnds(e, outcome));
      OneLoop(s) && CallsPayForExecs(s) && InOrder(s)
  {
  }

  lemma EndKeepsInv<T>(r: Runner<T>, e: nat, outcome: Outcome<T>)
    requires Inv(r) && Enabled(r, ExecEnds(e, outcome))
    ensures Inv(Next(r, ExecEnds(e, outcome)))
  {
    var s := Next(r, ExecEnds(e, outcome));
    EndKeepsOrder(r, e, outcome);
    hide OneLoop, CallsPayForExecs, InOrder;
    forall k | 0 <= k < |s.settlements| ensures Fresh(s.execs, s.settlements[k]) {
      assert Fresh(r.execs, r.settlements[k]);
    }
    forall d | 0 <= d < |s.execs| ensures Answered(s, d) {
      assert Answered(r, d);
    }
  }

  lemma GoingOnKeepsOrder<T>(r: Runner<T>, e: nat)
    requires OneLoop(r) && CallsPayForExecs(r) && InOrder(r) && r.running
      && e == |r.execs| - 1 && r.execs[e].outcome.Some?
    ensures var s := WentOn(r, e);
      OneLoop(s) && CallsPayForExecs(s) && InOrder(s)
  {
  }

  lemma GoingOnKeepsAnswers<T>(r: Runner<T>, e: nat, d: nat)
    requires CallsPayForExecs(r) && InOrder(r) && r.running && e == |r.execs| - 1 && r.execs[e].outcome.Some?
    requires d <= e && (d < e ==> Answered(r, d)) && r.waiters != []
    ensures Answered(WentOn(r, e), d)
  {
  }

  lemma GoingOnKeepsFresh<T>(r: Runner<T>, e: nat, k: nat)
    requires CallsPayForExecs(r) && InOrder(r) && r.running && e == |r.execs| - 1 && r.execs[e].outcome.Some?
    requires r.execs[e].endedAfter.None? && k < |WentOn(r, e).settlements|
    requires k < |r.settlements| ==> Fresh(r.execs, r.settlements[k])
    ensures Fresh(WentOn(r, e).execs, WentOn(r, e).settlements[k])
  {
  }

  lemma NewIsUnanswered<T>(r: Runner<T>, e: nat)
    requires CallsPayForExecs(r) && e == |r.execs| - 1 && r.execs[e].outcome.Some?
    ensures var s := WentOn(r, e); |s.execs| > |r.execs| ==> |s.execs| == e + 2 && Answered(s, e + 1)
  {
  }

  lemma GoingOnKeepsInv<T>(r: Runner<T>, e: nat)
    requires Inv(r) && Enabled(r, LoopGoesOn(e))
    ensures Inv(WentOn(r, e))
  {
    var s := WentOn(r, e);
    assert e == |r.execs| - 1 && r.running;
    GoingOnKeepsOrder(r, e);
    NewIsUnanswered(r, e);
    hide OneLoop, CallsPayForExecs, InOrder, Answered, Fresh;
    forall k | 0 <= k < |s.settlements| ensures Fresh(s.execs, s.settlements[k]) {
      GoingOnKeepsFresh(r, e, k);
    }
    forall d | 0 <= d < |s.execs| ensures Answered(s, d) {
      if d <= e {
        GoingOnKeepsAnswers(r, e, d);
      }
    }
  }

  lemma NextKeepsInv<T>(r: Runner<T>, step: Step<T>)
    requires Inv(r)
    ensures Inv(Next(r, step))
  {
    if Enabled(r, step) {
      match step
      case Call => CallKeepsInv(r);
      case ExecEnds(e, outcome) => EndKeepsInv(r, e, outcome);
      case LoopGoesOn(e) => GoingOnKeepsInv(r, e);
    }
  }

  lemma {:induction false} ReachedInv<T>(steps: seq<Step<T>>)
    ensures Inv(After(Initial<T>(), steps))
  {
    if steps != [] {
      ReachedInv(steps[..|steps| - 1]);
      NextKeepsInv(After(Initial<T>(), steps[..|steps| - 1]), steps[|steps| - 1]);
    }
  }

  // ------------------------------------------------------------ what callers get

  /** At most one EXEC is active at any time, and somebody who waits waits for a run. */
  lemma NeverTwoAtOnce<T>(steps: seq<Step<T>>, d: nat, e: nat)
    requires d < |After(Initial<T>(), steps).execs| && e < |After(Initial<T>(), steps).execs|
    ensures var r := After(Initial<T>(), steps);
      && (Active(r.execs[d]) && Active(r.execs[e]) ==> d == e && r.running)
      && (r.waiters != [] <==> r.running)
  {
    ReachedInv(steps);
  }

  predicate IsCall<T>(step: Step<T>) { step.Call? }

  function CountCalls<T>(steps: seq<Step<T>>): nat {
    if steps == [] then 0
    else CountCalls(steps[..|steps| - 1]) + if IsCall(steps[|steps| - 1]) then 1 else 0
  }

  lemma NextCounts<T>(r: Runner<T>, step: Step<T>)
    ensures Next(r, step).calls == r.calls + if IsCall(step) then 1 else 0
  {
  }

  /** Every call of a run is one of the callers. */
  lemma {:induction false} CallsAreCounted<T>(steps: seq<Step<T>>)
    ensures After(Initial<T>(), steps).calls == CountCalls(steps)
  {
    hide Next, IsCall;
    if steps != [] {
      CallsAreCounted(steps[..|steps| - 1]);
      NextCounts(After(Initial<T>(), steps[..|steps| - 1]), steps[|steps| - 1]);
    }
  }

  /** No more runs than calls. */
  lemma NoMoreExecsThanCalls<T>(steps: seq<Step<T>>)
    ensures |After(Initial<T>(), steps).execs| <= After(Initial<T>(), steps).calls
  {
    ReachedInv(steps);
    var r := After(Initial<T>(), steps);
    if r.execs != [] {
      assert |r.execs| - 1 < r.execs[|r.execs| - 1].startedAfter;
    }
  }

  ghost predicate SettledBy<T>(r: Runner<T>, caller: nat, k: nat) {
    k < |r.settlements| && r.settlements[k].caller == caller
  }

  /** Every caller either waits or has been settled, once, with a fresh outcome. */
  lemma SettledOnceAndFresh<T>(steps: seq<Step<T>>, caller: nat)
    requires caller < After(Initial<T>(), steps).calls
    ensures var r := After(Initial<T>(), steps);
      && (caller in r.waiters <==> !SettledBy(r, caller, caller))
      && (forall k: nat :: SettledBy(r, caller, k) ==> k == caller && Fresh(r.execs, r.settlements[k]))
  {
    ReachedInv(steps);
    var r := After(Initial<T>(), steps);
    if caller >= |r.settlements| {
      assert r.waiters[caller - |r.settlements|] == caller;
    }
  }

  /** EXEC `e` is the first one that started after the call and that no later call overlapped. */
  ghost predicate FirstStable<T>(execs: seq<Exec<T>>, caller: nat, e: nat) {
    && e < |execs| && Stable(execs, caller, e)
    && forall d :: 0 <= d < e ==> !Stable(execs, caller, d)
  }

  ghost predicate Stable<T>(execs: seq<Exec<T>>, caller: nat, e: nat)
    requires e < |execs|
  {
    caller < execs[e].startedAfter && execs[e].endedAfter == Some(execs[e].startedAfter)
  }

  /** The callers are settled in the order in which the EXECs ran. */
  ghost predicate Ordered<T>(r: Runner<T>) {
    forall i, j :: 0 <= i <= j < |r.settlements| ==> r.settlements[i].exec <= r.settlements[j].exec
  }

  lemma NextKeepsOrdered<T>(r: Runner<T>, step: Step<T>)
    requires Inv(r) && Ordered(r)
    ensures Ordered(Next(r, step))
  {
    if Enabled(r, step) && step.LoopGoesOn? {
      assert step.exec == |r.execs| - 1;
      forall k | 0 <= k < |r.settlements| ensures r.settlements[k].exec <= step.exec {
        assert Fresh(r.execs, r.settlements[k]);
      }
    }
  }

  lemma {:induction false} ReachedOrdered<T>(steps: seq<Step<T>>)
    ensures Ordered(After(Initial<T>(), steps))
  {
    if steps != [] {
      hide Inv, Ordered;
      var before := steps[..|steps| - 1];
      ReachedInv(before);
      ReachedOrdered(before);
      NextKeepsOrdered(After(Initial<T>(), before), steps[|steps| - 1]);
    } else {
      assert Ordered(Initial<T>());
    }
  }

  /** A caller gets the outcome of the first run that started after the call and that nobody overlapped. */
  lemma SettledByFirstStable<T>(steps: seq<Step<T>>, caller: nat)
    ensures var r := After(Initial<T>(), steps);
      SettledBy(r, caller, caller) ==> FirstStable(r.execs, caller, r.settlements[caller].exec)
  {
    hide After;
    ReachedInv(steps);
    ReachedOrdered(steps);
    var r := After(Initial<T>(), steps);
    if SettledBy(r, caller, caller) {
      var e := r.settlements[caller].exec;
      assert Fresh(r.execs, r.settlements[caller]);
      forall d | 0 <= d < e ensures !Stable(r.execs, caller, d) {
        assert Answered(r, d);
      }
    }
  }

  ghost predicate BothWait<T>(r: Runner<T>, c: nat, d: nat) { c in r.waiters && d in r.waiters }

  ghost predicate BothSettled<T>(r: Runner<T>, c: nat, d: nat) { SettledBy(r, c, c) && SettledBy(r, d, d) }

  /** Both wait, or both have been settled by the same run. */
  ghost predicate Together<T>(r: Runner<T>, c: nat, d: nat) {
    BothWait(r, c, d) || (BothSettled(r, c, d) && r.settlements[c].exec == r.settlements[d].exec)
  }

  lemma WaitersPlaced<T>(r: Runner<T>, c: nat)
    requires InOrder(r)
    ensures c in r.waiters <==> |r.settlements| <= c < r.calls
  {
    if |r.settlements| <= c < r.calls {
      assert r.waiters[c - |r.settlements|] == c;
    }
  }

  lemma NextKeepsTogether<T>(r: Runner<T>, step: Step<T>, c: nat, d: nat)
    requires Inv(r) && Together(r, c, d)
    ensures Together(Next(r, step), c, d)
  {
    hide OneLoop, CallsPayForExecs;
    WaitersPlaced(r, c);
    WaitersPlaced(r, d);
    if BothWait(r, c, d) {
      assert r.waiters[c - |r.settlements|] == c && r.waiters[d - |r.settlements|] == d;
    }
  }

  /** Callers that wait at the same time wait on together, or are settled together. */
  lemma {:induction false} SettledTogether<T>(steps: seq<Step<T>>, more: seq<Step<T>>, c: nat, d: nat)
    requires BothWait(After(Initial<T>(), steps), c, d)
    ensures Together(After(Initial<T>(), steps + more), c, d)
    decreases |more|
  {
    if more == [] {
      assert steps + more == steps;
    } else {
      hide Inv, Together, Next;
      var before := more[..|more| - 1];
      assert (steps + more)[..|steps + more| - 1] == steps + before;
      SettledTogether(steps, before, c, d);
      ReachedInv(steps + before);
      NextKeepsTogether(After(Initial<T>(), steps + before), more[|more| - 1], c, d);
    }
  }

  lemma SettledInOneStep<T>(r: Runner<T>, step: Step<T>, c: nat, d: nat)
    requires Inv(r) && BothSettled(Next(r, step), c, d)
    requires Next(r, step).settlements[c].exec == Next(r, step).settlements[d].exec
    ensures Together(r, c, d)
  {
    var s := Next(r, step);
    if s.settlements != r.settlements {
      assert step.LoopGoesOn? && step.exec == |r.execs| - 1 && r.execs[step.exec].endedAfter.None?;
      WaitersPlaced(r, c);
      WaitersPlaced(r, d);
      forall k | 0 <= k < |r.settlements| ensures r.settlements[k].exec != step.exec {
        assert Fresh(r.execs, r.settlements[k]);
      }
    }
  }

  /** Two callers get the outcome of the same run exactly if at some time both of them waited. */
  lemma {:induction false} SameRunExactlyIfTogether<T>(steps: seq<Step<T>>, c: nat, d: nat)
    requires BothSettled(After(Initial<T>(), steps), c, d)
    ensures var r := After(Initial<T>(), steps);
      r.settlements[c].exec == r.settlements[d].exec <==>
        exists i :: 0 <= i <= |steps| && BothWait(After(Initial<T>(), steps[..i]), c, d)
  {
    var r := After(Initial<T>(), steps);
    if i :| 0 <= i <= |steps| && BothWait(After(Initial<T>(), steps[..i]), c, d) {
      assert steps[..i] + steps[i..] == steps;
      SettledTogether(steps[..i], steps[i..], c, d);
      ReachedInv(steps);
      WaitersPlaced(r, c);
    } else if r.settlements[c].exec == r.settlements[d].exec {
      WaitedOnce(steps, c, d);
    }
  }

  lemma {:induction false} WaitedOnce<T>(steps: seq<Step<T>>, c: nat, d: nat)
    requires BothSettled(After(Initial<T>(), steps), c, d)
    requires After(Initial<T>(), steps).settlements[c].exec == After(Initial<T>(), steps).settlements[d].exec
    ensures exists i :: 0 <= i <= |steps| && BothWait(After(Initial<T>(), steps[..i]), c, d)
  {
    hide Inv, Next;
    if steps != [] {
      var before := steps[..|steps| - 1];
      var r := After(Initial<T>(), before);
      ReachedInv(before);
      SettledInOneStep(r, steps[|steps| - 1], c, d);
      if !BothWait(r, c, d) {
        WaitedOnce(before, c, d);
        var i :| 0 <= i <= |before| && BothWait(After(Initial<T>(), before[..i]), c, d);
        assert before[..i] == steps[..i];
      }
    }
  }

  ghost predicate SettlesSomebody<T>(r: Runner<T>, e: nat) {
    exists k :: 0 <= k < |r.settlements| && r.settlements[k].exec == e
  }

  /** A finished run is dropped, and settles nobody, exactly if a call came in while it lasted. */
  lemma DroppedExactlyIfOverlapped<T>(steps: seq<Step<T>>, e: nat)
    requires e < |After(Initial<T>(), steps).execs| && Over(After(Initial<T>(), steps).execs[e])
    ensures var r := After(Initial<T>(), steps);
      SettlesSomebody(r, e) <==> r.execs[e].endedAfter.value == r.execs[e].startedAfter
  {
    ReachedInv(steps);
    var r := After(Initial<T>(), steps);
    assert Answered(r, e);
    if SettlesSomebody(r, e) {
      var k :| 0 <= k < |r.settlements| && r.settlements[k].exec == e;
      assert Fresh(r.execs, r.settlements[k]);
    }
  }

  /** The last EXEC ends with `outcome`, if it is active, and its loop goes on. */
  function Finished<T>(r: Runner<T>, outcome: Outcome<T>): Runner<T> {
    if r.execs == [] then r else
      var e: nat := |r.execs| - 1;
      Next(Next(r, ExecEnds(e, outcome)), LoopGoesOn(e))
  }

  /** Once the calls stop, at most two more EXECs end before everybody is settled. */
  lemma TwoMoreRunsSettleEverybody<T>(steps: seq<Step<T>>, first: Outcome<T>, second: Outcome<T>)
    ensures var r := After(Initial<T>(), steps);
      var r1 := Finished(r, first);
      && (r.running && r.queued > 0 ==> r1.running && r1.queued == 0 && |r1.execs| == |r.execs| + 1)
      && (!(r.running && r.queued > 0) ==> !r1.running && r1.waiters == [])
      && !Finished(r1, second).running && Finished(r1, second).waiters == []
      && |Finished(r1, second).settlements| == r.calls
  {
    ReachedInv(steps);
    var r := After(Initial<T>(), steps);
    var r1 := Finished(r, first);
    FinishedKeepsInv(r, first);
    FinishedKeepsInv(r1, second);
  }

  lemma FinishedKeepsInv<T>(r: Runner<T>, outcome: Outcome<T>)
    requires Inv(r)
    ensures var s := Finished(r, outcome);
      && Inv(s) && s.calls == r.calls
      && (if r.running && r.queued > 0 then s.running && s.queued == 0 && |s.execs| == |r.execs| + 1
          else !s.running && s.waiters == [] && |s.settlements| == r.calls)
  {
    if r.execs != [] {
      var e: nat := |r.execs| - 1;
      NextKeepsInv(r, ExecEnds(e, outcome));
      NextKeepsInv(Next(r, ExecEnds(e, outcome)), LoopGoesOn(e));
      FinishedEffect(r, outcome);
    }
  }

  lemma FinishedEffect<T>(r: Runner<T>, outcome: Outcome<T>)
    requires OneLoop(r) && r.execs != []
    ensures var s := Finished(r, outcome);
      && s.calls == r.calls
      && (!r.running ==> s == r)
      && (r.running && r.queued > 0 ==> s.running && s.queued == 0 && |s.execs| == |r.execs| + 1)
      && (r.running && r.queued == 0 ==> !s.running && s.waiters == [])
  {
    var e: nat := |r.execs| - 1;
    if r.running {
      assert Enabled(Next(r, ExecEnds(e, outcome)), LoopGoesOn(e));
    } else {
      assert Over(r.execs[e]);
    }
  }

  // -------------------------------------------------------------- the closure

  /** What `makeQueuedLatest` closes over, with the promises numbered, and beside it what has happened. */
  class Closure<T> {
    var running: bool
    var queued: nat
    var waiters: seq<nat>
    var calls: nat
    ghost var execs: seq<Exec<T>>
    ghost var settlements: seq<Settlement<T>>

    ghost function Model(): Runner<T>
      reads this
    {
      Runner(running, queued, waiters, calls, execs, settlements)
    }

    constructor ()
      ensures Model() == Initial<T>()
    {
      running, queued, waiters := false, 0, [];
      calls, execs, settlements := 0, [], [];
    }

    method EnterExec()
      modifies this
      ensures Model() == StartExec(old(Model()))
    {
      running := true;
      queued := 0;
      execs := execs + [Exec(calls, None, None)];
    }

    method Wrapped()
      modifies this
      ensures Model() == Next(old(Model()), Call)
    {
      waiters := waiters + [calls];
      calls := calls + 1;
      if running {
        queued := queued + 1;
        return;
      }
      EnterExec();
    }

    method EndExec(ghost e: nat, outcome: Outcome<T>)
      requires Enabled(Model(), ExecEnds(e, outcome))
      modifies this
      ensures Model() == Next(old(Model()), ExecEnds(e, outcome))
    {
      execs := execs[e := execs[e].(outcome := Some(outcome))];
    }

    /** The rest of the loop's round after `await EXEC()`. */
    method GoOn(ghost e: nat)
      requires Enabled(Model(), LoopGoesOn(e))
      modifies this
      ensures Model() == Next(old(Model()), LoopGoesOn(e))
    {
      ghost var outcome := execs[e].outcome.value;
      execs := execs[e := execs[e].(endedAfter := Some(calls))];
      if queued > 0 {
        EnterExec();
        return;
      }
      var current := waiters;
      waiters := [];
      running := false;
      for k := 0 to |current|
        invariant settlements == old(settlements) + SettleAll(current[..k], e, outcome)
        invariant Model() == WentOn(old(Model()), e).(settlements := settlements)
      {
        ghost var settled := Settlement(current[k], e, outcome);
        assert SettleAll(current[..k + 1], e, outcome) == SettleAll(current[..k], e, outcome) + [settled];
        settlements := settlements + [settled];
      }
      assert current[..|current|] == current;
    }
  }
}
