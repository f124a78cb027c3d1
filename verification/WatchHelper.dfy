/**
 The debouncing watcher: file events, timers and the stages of a batch come in any order.
 */
module WatchHelper {
  import opened Wrappers

  type Path = string

  datatype State = IDLE | BUSY | SCHEDULE | RESCHEDULE

  datatype Stage = Created | Delivered | Finished

  /** One run of `handler`: the changes it took, the reports they came from, what started it. */
  datatype Batch = Batch(changes: seq<Path>, reports: seq<Path>, byTimer: bool, stage: Stage)

  /**
   `state`, `changes`, `debounce` and `lastRun` are fields of the program, and `timers` the timeouts
   that are set; the rest is what has happened so far, `invalid` counting the thrown errors.
   */
  datatype Watcher = Watcher(state: State, changes: seq<Path>, debounce: Option<nat>, lastRun: Option<nat>,
                             timers: set<nat>, timersSet: nat, batches: seq<Batch>, pending: seq<Path>,
                             invalid: nat)

  /** An event without a path is `Event(None, _)`. */
  datatype Step = Event(path: Option<Path>, ready: bool) | TimerFires(timer: nat)
                | CallbackRuns(batch: nat) | BatchEnds(batch: nat)

  const INITIAL: Watcher := Watcher(IDLE, [], None, None, {}, 0, [], [], 0)

  function Insert(paths: seq<Path>, path: Path): seq<Path> {
    if path in paths then paths else paths + [path]
  }

  /** The reports without their repetitions, in the order of the first ones. */
  function Distinct(reports: seq<Path>): seq<Path> {
    if reports == [] then [] else Insert(Distinct(reports[..|reports| - 1]), reports[|reports| - 1])
  }

  function Debounce(w: Watcher): Watcher {
    var cleared := if w.debounce.Some? then w.timers - {w.debounce.value} else w.timers;
    w.(timers := cleared + {w.timersSet}, debounce := Some(w.timersSet), timersSet := w.timersSet + 1)
  }

  function Reported(w: Watcher, path: Path): Watcher {
    w.(changes := Insert(w.changes, path), pending := w.pending + [path])
  }

  /** The empty path counts as no path. */
  predicate IsPath(path: Option<Path>) { path.Some? && path.value != "" }

  function Noted(w: Watcher, path: Option<Path>): Watcher {
    if IsPath(path) then Reported(w, path.value) else w
  }

  /** The event handler. */
  function LowlevelHandler(w: Watcher, path: Option<Path>, ready: bool): Watcher {
    var w := Noted(w, path);
    if w.changes == [] && !ready then w else
      match w.state
      case IDLE => Debounce(w.(state := SCHEDULE))
      case SCHEDULE => Debounce(w)
      case BUSY => w.(state := RESCHEDULE)
      case RESCHEDULE => w
  }

  function Handler(w: Watcher, byTimer: bool): Watcher {
    w.(changes := [], pending := [], state := BUSY, lastRun := Some(|w.batches|),
       batches := w.batches + [Batch(w.changes, w.pending, byTimer, Created)])
  }

  function TimerFired(w: Watcher, timer: nat): Watcher {
    Handler(w.(timers := w.timers - {timer}, debounce := None), true)
  }

  /** What `finally` does: it forgets `lastRun` even if it has just started a new batch. */
  function BatchEnded(w: Watcher, batch: nat): Watcher
    requires batch < |w.batches|
  {
    var w := w.(batches := w.batches[batch := w.batches[batch].(stage := Finished)]);
    var next := match w.state
      case RESCHEDULE => Handler(w, false)
      case BUSY => w.(state := IDLE)
      case _ => w.(invalid := w.invalid + 1);
    next.(lastRun := None)
  }

  predicate Enabled(w: Watcher, step: Step) {
    match step
    case Event(_, _) => true
    case TimerFires(timer) => timer in w.timers
    case CallbackRuns(batch) => batch < |w.batches| && w.batches[batch].stage == Created
    case BatchEnds(batch) => batch < |w.batches| && w.batches[batch].stage == Delivered
  }

  function Next(w: Watcher, step: Step): Watcher {
    if !Enabled(w, step) then w else
      match step
      case Event(path, ready) => LowlevelHandler(w, path, ready)
      case TimerFires(timer) => TimerFired(w, timer)
      case CallbackRuns(batch) => w.(batches := w.batches[batch := w.batches[batch].(stage := Delivered)])
      case BatchEnds(batch) => BatchEnded(w, batch)
  }

  function After(w: Watcher, steps: seq<Step>): Watcher {
    if steps == [] then w else Next(After(w, steps[..|steps| - 1]), steps[|steps| - 1])
  }

  // ---------------------------------------------------------------- invariant

  /** The reports of the batches, one batch after the other. */
  function BatchReports(batches: seq<Batch>): seq<Path> {
    if batches == [] then [] else BatchReports(batches[..|batches| - 1]) + batches[|batches| - 1].reports
  }

  predicate Working(state: State) { state == BUSY || state == RESCHEDULE }

  predicate InFlight(w: Watcher, batch: nat) {
    batch < |w.batches| && w.batches[batch].stage != Finished
  }

  /** A timer is set exactly in SCHEDULE, and `debounce` names it. */
  ghost predicate OneTimer(w: Watcher) {
    && (w.debounce.Some? <==> w.state == SCHEDULE)
    && w.timers == (if w.debounce.Some? then {w.debounce.value} else {})
  }

  /** A batch is in flight exactly in BUSY and RESCHEDULE, and it is the last one. */
  ghost predicate OneBatch(w: Watcher) {
    && (forall b :: 0 <= b < |w.batches| - 1 ==> w.batches[b].stage == Finished)
    && (Working(w.state) ==> w.batches != [])
    && (w.batches != [] ==> (w.batches[|w.batches| - 1].stage != Finished <==> Working(w.state)))
  }

  predicate LastRunIs(w: Watcher, batch: nat) {
    InFlight(w, batch) && w.batches[batch].byTimer
  }

  ghost predicate Inv(w: Watcher) {
    && OneTimer(w) && OneBatch(w)
    && (w.changes != [] ==> w.state == SCHEDULE || w.state == RESCHEDULE)
    && (forall b: nat :: w.lastRun == Some(b) <==> LastRunIs(w, b))
    && w.invalid == 0
  }

  lemma EventKeepsInv(w: Watcher, path: Option<Path>, ready: bool)
    requires Inv(w)
    ensures Inv(LowlevelHandler(w, path, ready))
  {
    var s := LowlevelHandler(w, path, ready);
    assert s.batches == w.batches && s.lastRun == w.lastRun;
    forall b: nat ensures s.lastRun == Some(b) <==> LastRunIs(s, b) {
      assert LastRunIs(w, b) <==> LastRunIs(s, b);
    }
  }

  lemma TimerKeepsInv(w: Watcher, timer: nat)
    requires Inv(w) && timer in w.timers
    ensures Inv(TimerFired(w, timer))
  {
    forall b: nat ensures TimerFired(w, timer).lastRun == Some(b) <==> LastRunIs(TimerFired(w, timer), b) {
      if b < |w.batches| {
        assert LastRunIs(TimerFired(w, timer), b) <==> LastRunIs(w, b);
      }
    }
  }

  lemma CallbackKeepsInv(w: Watcher, batch: nat)
    requires Inv(w) && Enabled(w, CallbackRuns(batch))
    ensures Inv(Next(w, CallbackRuns(batch)))
  {
    var s := Next(w, CallbackRuns(batch));
    forall b: nat ensures s.lastRun == Some(b) <==> LastRunIs(s, b) {
      assert LastRunIs(s, b) <==> LastRunIs(w, b);
    }
  }

  lemma EndKeepsInv(w: Watcher, batch: nat)
    requires Inv(w) && Enabled(w, BatchEnds(batch))
    ensures Inv(BatchEnded(w, batch))
  {
    var ended := w.(batches := w.batches[batch := w.batches[batch].(stage := Finished)]);
    assert batch == |w.batches| - 1 && Working(w.state);
    forall b: nat ensures !LastRunIs(BatchEnded(w, batch), b) {
      assert !InFlight(ended, b);
    }
  }

  lemma {:induction false} ReachedInv(steps: seq<Step>)
    ensures Inv(After(INITIAL, steps))
  {
    if steps != [] {
      ReachedInv(steps[..|steps| - 1]);
      NextKeepsInv(After(INITIAL, steps[..|steps| - 1]), steps[|steps| - 1]);
    }
  }

  lemma NextKeepsInv(w: Watcher, step: Step)
    requires Inv(w)
    ensures Inv(Next(w, step))
  {
    if Enabled(w, step) {
      match step
      case Event(path, ready) => EventKeepsInv(w, path, ready);
      case TimerFires(timer) => TimerKeepsInv(w, timer);
      case CallbackRuns(batch) => CallbackKeepsInv(w, batch);
      case BatchEnds(batch) => EndKeepsInv(w, batch);
    }
  }

  // -------------------------------------------------------------------- paths

  /** The changes are the distinct reports, in the watcher and in each of its batches. */
  ghost predicate PathsFit(w: Watcher) {
    && w.changes == Distinct(w.pending)
    && (forall b :: 0 <= b < |w.batches| ==> w.batches[b].changes == Distinct(w.batches[b].reports))
  }

  /** All reports: those of the batches, and then those not yet taken. */
  function AllReports(w: Watcher): seq<Path> {
    BatchReports(w.batches) + w.pending
  }

  /** The paths that the events of a run reported. */
  function ReportedPaths(steps: seq<Step>): seq<Path> {
    if steps == [] then []
    else ReportedPaths(steps[..|steps| - 1]) + ReportedBy(steps[|steps| - 1])
  }

  function ReportedBy(step: Step): seq<Path> {
    if step.Event? && IsPath(step.path) then [step.path.value] else []
  }

  lemma {:induction false} StageKeepsReports(batches: seq<Batch>, b: nat, stage: Stage)
    requires b < |batches|
    ensures BatchReports(batches[b := batches[b].(stage := stage)]) == BatchReports(batches)
  {
    var changed := batches[b := batches[b].(stage := stage)];
    if b < |batches| - 1 {
      assert changed[..|batches| - 1] == batches[..|batches| - 1][b := batches[b].(stage := stage)];
      StageKeepsReports(batches[..|batches| - 1], b, stage);
    } else {
      assert changed[..|batches| - 1] == batches[..|batches| - 1];
    }
  }

  lemma NotedPaths(w: Watcher, path: Option<Path>)
    requires PathsFit(w)
    ensures PathsFit(Noted(w, path)) && AllReports(Noted(w, path)) == AllReports(w) + ReportedBy(Event(path, false))
  {
    if IsPath(path) {
      assert (w.pending + [path.value])[..|w.pending|] == w.pending;
    }
  }

  lemma HandlerPaths(w: Watcher, byTimer: bool)
    requires PathsFit(w)
    ensures PathsFit(Handler(w, byTimer)) && AllReports(Handler(w, byTimer)) == AllReports(w)
  {
    var all := Handler(w, byTimer).batches;
    assert all[..|all| - 1] == w.batches;
  }

  lemma EndedPaths(w: Watcher, batch: nat)
    requires PathsFit(w) && batch < |w.batches|
    ensures PathsFit(BatchEnded(w, batch)) && AllReports(BatchEnded(w, batch)) == AllReports(w)
  {
    var ended := w.(batches := w.batches[batch := w.batches[batch].(stage := Finished)]);
    StageKeepsReports(w.batches, batch, Finished);
    HandlerPaths(ended, false);
  }

  lemma SamePaths(w: Watcher, s: Watcher)
    requires PathsFit(w) && s.changes == w.changes && s.pending == w.pending && s.batches == w.batches
    ensures PathsFit(s) && AllReports(s) == AllReports(w)
  {
  }

  lemma EventPaths(w: Watcher, path: Option<Path>, ready: bool)
    requires PathsFit(w)
    ensures var s := LowlevelHandler(w, path, ready);
      PathsFit(s) && AllReports(s) == AllReports(w) + ReportedBy(Event(path, ready))
  {
    hide PathsFit, AllReports, Noted;
    NotedPaths(w, path);
    SamePaths(Noted(w, path), LowlevelHandler(w, path, ready));
  }

  lemma CallbackPaths(w: Watcher, batch: nat)
    requires PathsFit(w) && batch < |w.batches|
    ensures var s := w.(batches := w.batches[batch := w.batches[batch].(stage := Delivered)]);
      PathsFit(s) && AllReports(s) == AllReports(w)
  {
    hide Distinct, BatchReports;
    StageKeepsReports(w.batches, batch, Delivered);
  }

  lemma NextPaths(w: Watcher, step: Step)
    requires PathsFit(w)
    ensures PathsFit(Next(w, step)) && AllReports(Next(w, step)) == AllReports(w) + ReportedBy(step)
  {
    hide PathsFit, AllReports, LowlevelHandler, Handler, BatchEnded;
    if Enabled(w, step) {
      match step
      case Event(path, ready) => EventPaths(w, path, ready);
      case TimerFires(timer) =>
        var cleared := w.(timers := w.timers - {timer}, debounce := None);
        SamePaths(w, cleared);
        HandlerPaths(cleared, true);
      case CallbackRuns(batch) => CallbackPaths(w, batch);
      case BatchEnds(batch) => EndedPaths(w, batch);
    }
  }

  lemma {:induction false} ReachedPaths(steps: seq<Step>)
    ensures PathsFit(After(INITIAL, steps)) && AllReports(After(INITIAL, steps)) == ReportedPaths(steps)
  {
    hide Next, Distinct, BatchReports;
    if steps != [] {
      ReachedPaths(steps[..|steps| - 1]);
      NextPaths(After(INITIAL, steps[..|steps| - 1]), steps[|steps| - 1]);
    } else {
      NothingReported();
    }
  }

  lemma NothingReported()
    ensures PathsFit(INITIAL) && AllReports(INITIAL) == []
  {
  }

  // ------------------------------------------------------------------ results

  /** The state tells whether a timer is set and whether a batch is in flight, and never more than one. */
  lemma StateTellsAll(steps: seq<Step>, timer: nat, batch: nat)
    ensures var w := After(INITIAL, steps);
      && (timer in w.timers ==> w.state == SCHEDULE && w.timers == {timer})
      && (w.state == SCHEDULE ==> |w.timers| == 1)
      && (InFlight(w, batch) ==> Working(w.state) && batch == |w.batches| - 1)
      && (Working(w.state) ==> w.batches != [] && InFlight(w, |w.batches| - 1))
      && (w.changes != [] ==> w.state == SCHEDULE || w.state == RESCHEDULE)
  {
    ReachedInv(steps);
  }

  /** Something is to be taken by a batch to come: a path, or the wish for a batch without one. */
  predicate IsWanted(step: Step) { step.Event? && (IsPath(step.path) || step.ready) }

  /** Since the last batch started a path was reported, or a batch wanted. */
  function AwaitsBatch(steps: seq<Step>): bool {
    if steps == [] then false
    else
      var front, last := steps[..|steps| - 1], steps[|steps| - 1];
      if |After(INITIAL, steps).batches| > |After(INITIAL, front).batches| then false
      else AwaitsBatch(front) || IsWanted(last)
  }

  lemma StepAwaits(w: Watcher, step: Step)
    requires Inv(w)
    ensures var t, coming := Next(w, step), w.state == SCHEDULE || w.state == RESCHEDULE;
      && |w.batches| <= |t.batches| <= |w.batches| + 1
      && (t.state == SCHEDULE || t.state == RESCHEDULE <==>
            |t.batches| == |w.batches| && (coming || IsWanted(step)))
  {
    hide InFlight;
  }

  /** A batch is to come, in SCHEDULE or RESCHEDULE, exactly if something has been wanted since the last one started. */
  lemma {:induction false} ComesExactlyIfWanted(steps: seq<Step>)
    ensures var w := After(INITIAL, steps);
      w.state == SCHEDULE || w.state == RESCHEDULE <==> AwaitsBatch(steps)
  {
    hide Inv, Next;
    if steps != [] {
      var front := steps[..|steps| - 1];
      ReachedInv(front);
      ComesExactlyIfWanted(front);
      StepAwaits(After(INITIAL, front), steps[|steps| - 1]);
    }
  }

  /** No timer set so far has a number as high as this. */
  ghost predicate TimersBelow(w: Watcher) {
    forall timer :: timer in w.timers ==> timer < w.timersSet
  }

  lemma NextTimersBelow(w: Watcher, step: Step)
    requires TimersBelow(w)
    ensures TimersBelow(Next(w, step)) && Next(w, step).timersSet >= w.timersSet
  {
  }

  lemma {:induction false} ReachedTimersBelow(steps: seq<Step>, i: nat)
    requires i <= |steps|
    ensures TimersBelow(After(INITIAL, steps))
    ensures After(INITIAL, steps[..i]).timersSet <= After(INITIAL, steps).timersSet
    decreases |steps|
  {
    hide Next, TimersBelow;
    var front := steps[..|steps| - if steps == [] then 0 else 1];
    if steps != [] {
      ReachedTimersBelow(front, if i < |steps| then i else |front|);
      NextTimersBelow(After(INITIAL, front), steps[|steps| - 1]);
      assert i < |steps| ==> steps[..i] == front[..i];
      assert i == |steps| ==> steps[..i] == steps;
    } else {
      assert steps[..i] == [];
      NoTimersYet();
    }
  }

  lemma NoTimersYet()
    ensures TimersBelow(INITIAL)
  {
  }

  /**
   Outside a batch, an event that wants one, or comes while there are changes, sets a timer that was never set
   before and clears the one there was: the wait begins again.  During a batch no event sets one; and an event
   that wants nothing while there are no changes does nothing.
   */
  lemma EventsBeginWaitAgain(steps: seq<Step>, i: nat, path: Option<Path>, ready: bool)
    requires i <= |steps|
    ensures var w, event := After(INITIAL, steps), Event(path, ready); var t := Next(w, event);
      if !IsWanted(event) && w.changes == [] then t == w
      else if Working(w.state) then t.timers == {} && t.state == RESCHEDULE && t.batches == w.batches
      else
        && t.state == SCHEDULE && t.batches == w.batches
        && exists timer: nat :: t.timers == {timer} && timer !in After(INITIAL, steps[..i]).timers
  {
    hide After;
    ReachedInv(steps);
    ReachedTimersBelow(steps, i);
    ReachedTimersBelow(steps[..i], 0);
    var w := After(INITIAL, steps);
    EventSetsTimer(w, path, ready);
    hide Inv, Next;
    if !Working(w.state) && (IsWanted(Event(path, ready)) || w.changes != []) {
      assert w.timersSet !in After(INITIAL, steps[..i]).timers;
    }
  }

  lemma EventSetsTimer(w: Watcher, path: Option<Path>, ready: bool)
    requires Inv(w)
    ensures var event := Event(path, ready); var t := Next(w, event);
      if !IsWanted(event) && w.changes == [] then t == w
      else if Working(w.state) then t.timers == {} && t.state == RESCHEDULE && t.batches == w.batches
      else t.state == SCHEDULE && t.batches == w.batches && t.timers == {w.timersSet}
  {
    hide InFlight;
  }

  /** No error about an invalid state is ever thrown. */
  lemma NeverInvalid(steps: seq<Step>)
    ensures After(INITIAL, steps).invalid == 0
  {
    ReachedInv(steps);
  }

  lemma {:induction false} DistinctHasAll(reports: seq<Path>, path: Path)
    ensures path in Distinct(reports) <==> path in reports
    ensures forall i, j :: 0 <= i < j < |Distinct(reports)| ==> Distinct(reports)[i] != Distinct(reports)[j]
  {
    if reports != [] {
      DistinctHasAll(reports[..|reports| - 1], path);
      DistinctHasAll(reports[..|reports| - 1], reports[|reports| - 1]);
      assert reports == reports[..|reports| - 1] + [reports[|reports| - 1]];
    }
  }

  /**
   What the events of a run reported are, in that order, the reports of the batches, one batch after
   the other, and then those not yet taken; and each batch has each of its paths exactly once.
   */
  lemma ReportsAreBatched(steps: seq<Step>, batch: nat, path: Path)
    ensures var w := After(INITIAL, steps);
      && BatchReports(w.batches) + w.pending == ReportedPaths(steps)
      && (path in w.changes <==> path in w.pending)
      && (batch < |w.batches| ==>
            && (path in w.batches[batch].changes <==> path in w.batches[batch].reports)
            && (forall i, j :: 0 <= i < j < |w.batches[batch].changes| ==>
                  w.batches[batch].changes[i] != w.batches[batch].changes[j]))
  {
    ReachedPaths(steps);
    var w := After(INITIAL, steps);
    DistinctHasAll(w.pending, path);
    if batch < |w.batches| {
      DistinctHasAll(w.batches[batch].reports, path);
    }
  }

  /** All batches are over, and together they took just these reports, in this order. */
  ghost predicate HasDelivered(w: Watcher, reports: seq<Path>) {
    BatchReports(w.batches) == reports && forall b :: 0 <= b < |w.batches| ==> w.batches[b].stage == Finished
  }

  /** While idle, all that was reported has been delivered. */
  lemma IdleMeansDelivered(steps: seq<Step>)
    requires After(INITIAL, steps).state == IDLE
    ensures HasDelivered(After(INITIAL, steps), ReportedPaths(steps))
  {
    hide After;
    ReachedInv(steps);
    ReachedPaths(steps);
    var w := After(INITIAL, steps);
    if w.pending != [] {
      DistinctHasAll(w.pending, w.pending[0]);
    }
  }

  /**
   `dispose` awaits `lastRun`, which is set exactly while a batch that a timer started is in flight:
   during a batch started by the end of another one there is nothing to await.
   */
  lemma LastRunExactlyIfByTimer(steps: seq<Step>)
    ensures var w := After(INITIAL, steps);
      w.lastRun.Some? <==> Working(w.state) && w.batches != [] && w.batches[|w.batches| - 1].byTimer
  {
    ReachedInv(steps);
    var w := After(INITIAL, steps);
    if Working(w.state) && w.batches[|w.batches| - 1].byTimer {
      assert LastRunIs(w, |w.batches| - 1);
    }
    if w.lastRun.Some? {
      assert LastRunIs(w, w.lastRun.value);
    }
  }

  lemma AfterOneMore(w: Watcher, steps: seq<Step>, step: Step)
    ensures After(w, steps + [step]) == Next(After(w, steps), step)
  {
    assert (steps + [step])[..|steps|] == steps;
  }

  const TWO_CHANGES: seq<Step> :=
    [Event(Some("a"), false), TimerFires(0), CallbackRuns(0), Event(Some("b"), false), BatchEnds(0)]

  lemma FirstBatch()
    ensures var w := After(INITIAL, TWO_CHANGES[..3]);
      && w.state == BUSY && w.changes == [] && |w.batches| == 1 && w.batches[0].stage == Delivered
  {
    var none: seq<Step> := [];
    assert TWO_CHANGES[..3] == none + [TWO_CHANGES[0]] + [TWO_CHANGES[1]] + [TWO_CHANGES[2]];
    AfterOneMore(INITIAL, none, TWO_CHANGES[0]);
    AfterOneMore(INITIAL, none + [TWO_CHANGES[0]], TWO_CHANGES[1]);
    AfterOneMore(INITIAL, none + [TWO_CHANGES[0]] + [TWO_CHANGES[1]], TWO_CHANGES[2]);
    assert After(INITIAL, none) == INITIAL;
    hide After;
    var w := Next(INITIAL, TWO_CHANGES[0]);
    assert w.state == SCHEDULE && w.timers == {0} && w.batches == [];
  }

  /** Two changes, the second one while the callback of the first one runs. */
  lemma SecondBatchIsForgotten()
    ensures var w := After(INITIAL, TWO_CHANGES);
      && w.state == BUSY && w.lastRun == None
      && |w.batches| == 2 && w.batches[1].changes == ["b"] && w.batches[1].stage == Created
  {
    FirstBatch();
    AfterOneMore(INITIAL, TWO_CHANGES[..3], TWO_CHANGES[3]);
    AfterOneMore(INITIAL, TWO_CHANGES[..3] + [TWO_CHANGES[3]], TWO_CHANGES[4]);
    assert TWO_CHANGES == TWO_CHANGES[..3] + [TWO_CHANGES[3]] + [TWO_CHANGES[4]];
    hide After;
    var w := Next(After(INITIAL, TWO_CHANGES[..3]), TWO_CHANGES[3]);
    assert w.state == RESCHEDULE && w.changes == ["b"] && |w.batches| == 1 && w.batches[0].stage == Delivered;
  }

  // ----------------------------------------------------------------- progress

  /** How many steps it takes to come to rest without further events. */
  function ToRest(w: Watcher): nat {
    var inFlight := if w.batches != [] && w.batches[|w.batches| - 1].stage == Created then 2 else 1;
    match w.state
    case IDLE => 0
    case SCHEDULE => 3
    case BUSY => inFlight
    case RESCHEDULE => inFlight + 2
  }

  /** Each step but an event brings the rest nearer, and at rest exactly there is none. */
  lemma EachStepNearsRest(w: Watcher, step: Step)
    requires Inv(w) && !step.Event? && Enabled(w, step)
    ensures ToRest(Next(w, step)) == ToRest(w) - 1
  {
  }

  /** Nothing can happen but a further event. */
  ghost predicate AtRest(w: Watcher) {
    forall step: Step :: Enabled(w, step) ==> step.Event?
  }

  lemma IdleExactlyAtRest(w: Watcher)
    requires Inv(w)
    ensures w.state == IDLE <==> AtRest(w)
  {
    if w.state == SCHEDULE {
      assert Enabled(w, TimerFires(w.debounce.value));
    } else if Working(w.state) {
      var last: nat := |w.batches| - 1;
      assert Enabled(w, CallbackRuns(last)) || Enabled(w, BatchEnds(last));
    }
  }

  ghost predicate AllEnabled(w: Watcher, steps: seq<Step>) {
    forall k :: 0 <= k < |steps| ==> !steps[k].Event? && Enabled(After(w, steps[..k]), steps[k])
  }

  lemma {:induction false} AfterAppend(w: Watcher, a: seq<Step>, b: seq<Step>)
    ensures After(w, a + b) == After(After(w, a), b)
    decreases |b|
  {
    if b == [] {
      assert a + b == a;
    } else {
      assert (a + b)[..|a + b| - 1] == a + b[..|b| - 1];
      AfterAppend(w, a, b[..|b| - 1]);
    }
  }

  lemma {:induction false} QuietReportsNothing(events: seq<Step>, quiet: seq<Step>)
    requires forall k :: 0 <= k < |quiet| ==> !quiet[k].Event?
    ensures ReportedPaths(events + quiet) == ReportedPaths(events)
    decreases |quiet|
  {
    if quiet == [] {
      assert events + quiet == events;
    } else {
      assert (events + quiet)[..|events + quiet| - 1] == events + quiet[..|quiet| - 1];
      QuietReportsNothing(events, quiet[..|quiet| - 1]);
    }
  }

  /**
   After the events stop, at most four steps follow.  When nothing more can happen, which is exactly
   in IDLE, all that the events reported has been delivered.
   */
  lemma {:induction false} ComesToRest(events: seq<Step>, quiet: seq<Step>)
    requires AllEnabled(After(INITIAL, events), quiet)
    ensures |quiet| <= 4
    ensures var w := After(After(INITIAL, events), quiet);
      && Inv(w) && |quiet| == ToRest(After(INITIAL, events)) - ToRest(w)
      && (w.state == IDLE <==> AtRest(w))
      && (AtRest(w) ==> HasDelivered(w, ReportedPaths(events)))
  {
    hide Inv, Next, ToRest, AtRest;
    ReachedInv(events);
    Quiet(After(INITIAL, events), quiet);
    var w := After(After(INITIAL, events), quiet);
    IdleExactlyAtRest(w);
    AtMostFour(After(INITIAL, events));
    AfterAppend(INITIAL, events, quiet);
    if w.state == IDLE {
      QuietReportsNothing(events, quiet);
      IdleMeansDelivered(events + quiet);
    }
  }

  lemma AtMostFour(w: Watcher)
    ensures ToRest(w) <= 4
  {
  }

  lemma {:induction false} Quiet(w: Watcher, quiet: seq<Step>)
    requires Inv(w) && AllEnabled(w, quiet)
    ensures Inv(After(w, quiet)) && |quiet| == ToRest(w) - ToRest(After(w, quiet))
  {
    if quiet != [] {
      var before := quiet[..|quiet| - 1];
      forall k | 0 <= k < |before| ensures Enabled(After(w, before[..k]), before[k]) && !before[k].Event? {
        assert before[..k] == quiet[..k];
        assert Enabled(After(w, quiet[..k]), quiet[k]);
      }
      Quiet(w, before);
      NextKeepsInv(After(w, before), quiet[|quiet| - 1]);
      EachStepNearsRest(After(w, before), quiet[|quiet| - 1]);
    }
  }

  // ------------------------------------------------------------------ the class

  class Helper {
    var state: State
    var changes: seq<Path>
    var debounce: Option<nat>
    var lastRun: Option<nat>
    var timers: set<nat>
    var timersSet: nat
    var promises: nat
    ghost var batches: seq<Batch>
    ghost var pending: seq<Path>
    ghost var invalid: nat

    /** The promises of the batches are numbered. */
    ghost predicate Valid()
      reads this
    {
      promises == |batches|
    }

    ghost function Model(): Watcher
      reads this
    {
      Watcher(state, changes, debounce, lastRun, timers, timersSet, batches, pending, invalid)
    }

    constructor ()
      ensures Valid() && Model() == INITIAL
    {
      state, changes, debounce, lastRun, invalid := IDLE, [], None, None, 0;
      timers, timersSet, promises, batches, pending := {}, 0, 0, [], [];
    }

    method SetDebounce()
      requires Valid()
      modifies this
      ensures Valid() && Model() == Debounce(old(Model()))
    {
      if debounce.Some? {
        timers := timers - {debounce.value};
        debounce := None;
      }
      timers := timers + {timersSet};
      debounce := Some(timersSet);
      timersSet := timersSet + 1;
    }

    method OnEvent(path: Option<Path>, ready: bool)
      requires Valid()
      modifies this
      ensures Valid() && Model() == Next(old(Model()), Event(path, ready))
    {
      if path.Some? && path.value != "" {
        if path.value !in changes {
          changes := changes + [path.value];
        }
        pending := pending + [path.value];
      }
      if |changes| == 0 && !ready {
        return;
      }
      match state {
        case IDLE =>
          state := SCHEDULE;
          SetDebounce();
        case SCHEDULE => SetDebounce();
        case BUSY => state := RESCHEDULE;
        case RESCHEDULE =>
      }
    }

    method Handle(ghost byTimer: bool)
      requires Valid()
      modifies this
      ensures Valid() && Model() == Handler(old(Model()), byTimer)
    {
      var taken := changes;
      changes := [];
      state := BUSY;
      lastRun := Some(promises);
      promises := promises + 1;
      batches := batches + [Batch(taken, pending, byTimer, Created)];
      pending := [];
    }

    method OnTimer(timer: nat)
      requires Valid() && timer in timers
      modifies this
      ensures Valid() && Model() == Next(old(Model()), TimerFires(timer))
    {
      timers := timers - {timer};
      debounce := None;
      Handle(true);
    }

    method OnCallback(batch: nat)
      requires Valid() && Enabled(Model(), CallbackRuns(batch))
      modifies this
      ensures Valid() && Model() == Next(old(Model()), CallbackRuns(batch))
    {
      batches := batches[batch := batches[batch].(stage := Delivered)];
    }

    method OnFinally(batch: nat)
      requires Valid() && Enabled(Model(), BatchEnds(batch))
      modifies this
      ensures Valid() && Model() == Next(old(Model()), BatchEnds(batch))
    {
      batches := batches[batch := batches[batch].(stage := Finished)];
      if state == RESCHEDULE {
        Handle(false);
      } else if state == BUSY {
        state := IDLE;
      } else {
        invalid := invalid + 1;
      }
      lastRun := None;
    }
  }
}
