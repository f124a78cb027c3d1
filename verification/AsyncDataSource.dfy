/**
 The buffered data source: a producer pushes, ends or fails, a consumer asks and sleeps, and
 somebody may dispose, in any order.
 */
module AsyncDataSource {

  /** The `error` field.  A failure with a falsy value is stored, but the tests of the field do not see it. */
  datatype Failure = NoFailure | Falsy | Truthy(id: nat) | Canceled

  /** `Woken` from when the promise is resolved until its continuation runs. */
  datatype Waiting = Nobody | Asleep | Woken

  datatype Reply<T> = Item(item: T) | Done | Threw(error: Failure) | StillWaiting | Abnormal | UseAfterDispose

  datatype Answer = Accepted | Overflow | AlreadyFinished | AlreadyFailed | IsDisposed

  /**
   `max` to `disposed` are the program's; then what has happened: the items appended to the queue,
   those delivered and where they were among the former, how many were dropped, whether a falsy
   failure was reported, and what the consumer was told.
   */
  datatype Source<T> = Source(max: nat, throws: bool, queue: seq<T>, finished: bool, error: Failure,
                              waiting: Waiting, disposed: bool, pushed: seq<T>, delivered: seq<T>,
                              positions: seq<nat>, dropped: nat, sawFalsy: bool, replies: seq<Reply<T>>)

  datatype Step<T> = Push(item: T) | Finish | ThrowError(error: Failure) | Dispose | AskNext | Wake

  function Initial<T>(max: nat, throws: bool): Source<T> {
    Source(max, throws, [], false, NoFailure, Nobody, false, [], [], [], 0, false, [])
  }

  predicate IsError(error: Failure) { error.Truthy? || error.Canceled? }

  function Resolve(waiting: Waiting): Waiting {
    if waiting == Nobody then Nobody else Woken
  }

  // ------------------------------------------------------------------ producer

  function PushAnswer<T>(s: Source<T>): Answer {
    if s.disposed then IsDisposed
    else if s.finished then AlreadyFinished
    else if IsError(s.error) then AlreadyFailed
    else if s.throws && |s.queue| >= s.max then Overflow
    else Accepted
  }

  /** Drops the oldest items until the queue fits. */
  function Fit<T>(s: Source<T>): Source<T> {
    if |s.queue| <= s.max then s
    else s.(queue := s.queue[|s.queue| - s.max..], dropped := s.dropped + |s.queue| - s.max)
  }

  /** An overflow is reported only after the item has been appended, and wakes nobody. */
  function Pushed<T>(s: Source<T>, item: T): Source<T> {
    var appended := s.(queue := s.queue + [item], pushed := s.pushed + [item]);
    match PushAnswer(s)
    case Accepted => Fit(appended).(waiting := Resolve(s.waiting))
    case Overflow => appended
    case _ => s
  }

  function FinishAnswer<T>(s: Source<T>): Answer {
    if s.disposed then IsDisposed else if IsError(s.error) then AlreadyFailed else Accepted
  }

  function Finished<T>(s: Source<T>): Source<T> {
    if FinishAnswer(s) != Accepted then s else s.(finished := true, waiting := Resolve(s.waiting))
  }

  function ThrowAnswer<T>(s: Source<T>): Answer {
    if s.disposed then IsDisposed
    else if s.finished then AlreadyFinished
    else if IsError(s.error) then AlreadyFailed
    else Accepted
  }

  function Thrown<T>(s: Source<T>, error: Failure): Source<T> {
    if ThrowAnswer(s) != Accepted then s
    else s.(error := error, sawFalsy := s.sawFalsy || !IsError(error), waiting := Resolve(s.waiting))
  }

  function Disposed<T>(s: Source<T>): Source<T> {
    if s.disposed then s
    else if s.waiting != Nobody then s.(error := Canceled, waiting := Woken, queue := [], disposed := true)
    else s.(finished := true, queue := [], disposed := true)
  }

  // ------------------------------------------------------------------ consumer

  function Replied<T>(s: Source<T>, reply: Reply<T>): Source<T> {
    s.(replies := s.replies + [reply])
  }

  function Taken<T>(s: Source<T>): Source<T>
    requires s.queue != []
  {
    var position := if |s.queue| <= |s.pushed| then |s.pushed| - |s.queue| else 0;
    Replied(s, Item(s.queue[0])).(queue := s.queue[1..], delivered := s.delivered + [s.queue[0]],
                                  positions := s.positions + [position])
  }

  function Asked<T>(s: Source<T>): Source<T> {
    if s.disposed then Replied(s, UseAfterDispose)
    else if s.waiting != Nobody then Replied(s, StillWaiting)
    else if s.queue != [] then Taken(s)
    else if s.finished then Replied(s, Done)
    else if IsError(s.error) then Replied(s, Threw(s.error))
    else s.(waiting := Asleep)
  }

  /** The continuation after the sleep: `_next` once more, unless there is an error. */
  function Awoken<T>(s: Source<T>): Source<T> {
    var s := s.(waiting := Nobody);
    if IsError(s.error) then Replied(s, Threw(s.error))
    else if s.disposed then Replied(s, UseAfterDispose)
    else if s.queue != [] then Taken(s)
    else if s.finished then Replied(s, Done)
    else Replied(s, Abnormal)
  }

  predicate Enabled<T>(s: Source<T>, step: Step<T>) {
    match step
    case Wake => s.waiting == Woken
    case ThrowError(error) => error.Falsy? || error.Truthy?
    case _ => true
  }

  function Next<T>(s: Source<T>, step: Step<T>): Source<T> {
    if !Enabled(s, step) then s else
      match step
      case Push(item) => Pushed(s, item)
      case Finish => Finished(s)
      case ThrowError(error) => Thrown(s, error)
      case Dispose => Disposed(s)
      case AskNext => Asked(s)
      case Wake => Awoken(s)
  }

  function After<T>(s: Source<T>, steps: seq<Step<T>>): Source<T> {
    if steps == [] then s else Next(After(s, steps[..|steps| - 1]), steps[|steps| - 1])
  }

  // ---------------------------------------------------------------- invariant

  /** The queue is the newest items. */
  ghost predicate QueueIsNewest<T>(s: Source<T>) {
    |s.queue| <= |s.pushed| && s.pushed[|s.pushed| - |s.queue|..] == s.queue
  }

  /** What was delivered was pushed, in that order, and before all that is queued. */
  ghost predicate DeliveredInOrder<T>(s: Source<T>) {
    && |s.positions| == |s.delivered|
    && (forall k :: 0 <= k < |s.positions| ==>
          s.positions[k] < |s.pushed| && s.delivered[k] == s.pushed[s.positions[k]])
    && (forall k :: 0 <= k < |s.positions| ==> s.positions[k] + |s.queue| < |s.pushed|)
    && (forall j, k :: 0 <= j < k < |s.positions| ==> s.positions[j] < s.positions[k])
  }

  /** Before the disposal every item is delivered, dropped or queued; with none dropped the order is gapless. */
  ghost predicate AllAccounted<T>(s: Source<T>) {
    && (!s.disposed ==> |s.delivered| + s.dropped + |s.queue| == |s.pushed|)
    && (s.dropped == 0 ==> forall k :: 0 <= k < |s.positions| ==> s.positions[k] == k)
  }

  ghost predicate Bounded<T>(s: Source<T>) {
    if s.throws then s.dropped == 0 else |s.queue| <= s.max
  }

  /** There is something to tell the consumer. */
  predicate HasNews<T>(s: Source<T>) {
    s.queue != [] || s.finished || IsError(s.error)
  }

  /** Without a buffer in drop mode, or with a falsy failure, a wake-up may come with no news. */
  predicate WakesForNothing<T>(s: Source<T>) {
    s.sawFalsy || (!s.throws && s.max == 0)
  }

  ghost predicate WokenForNews<T>(s: Source<T>) {
    && (s.waiting == Woken && !WakesForNothing(s) ==> HasNews(s))
    && (s.waiting == Asleep && !(s.throws && s.max == 0) ==> !HasNews(s))
    && (s.error == Falsy ==> s.sawFalsy)
    && (!WakesForNothing(s) ==> Abnormal !in s.replies)
    && (s.disposed ==>
          s.queue == [] && s.waiting != Asleep && (if s.waiting == Woken then s.error == Canceled else true))
  }

  ghost predicate ItemsFit<T>(s: Source<T>) {
    QueueIsNewest(s) && DeliveredInOrder(s) && AllAccounted(s)
  }

  ghost predicate Inv<T>(s: Source<T>) {
    ItemsFit(s) && Bounded(s) && WokenForNews(s)
  }

  lemma AppendFits<T>(s: Source<T>, item: T)
    requires ItemsFit(s)
    ensures ItemsFit(s.(queue := s.queue + [item], pushed := s.pushed + [item]))
  {
  }

  lemma FitFits<T>(s: Source<T>)
    requires ItemsFit(s)
    ensures ItemsFit(Fit(s))
  {
    if |s.queue| > s.max {
      assert s.pushed[|s.pushed| - s.max..] == s.queue[|s.queue| - s.max..];
    }
  }

  lemma PushKeepsItems<T>(s: Source<T>, item: T)
    requires ItemsFit(s)
    ensures ItemsFit(Pushed(s, item))
  {
    var appended := s.(queue := s.queue + [item], pushed := s.pushed + [item]);
    AppendFits(s, item);
    FitFits(appended);
    if PushAnswer(s) == Accepted {
      assert ItemsFit(Fit(appended).(waiting := Resolve(s.waiting)));
    }
  }

  lemma TakeFits<T>(s: Source<T>)
    requires ItemsFit(s) && s.queue != [] && !s.disposed
    ensures ItemsFit(Taken(s))
  {
    var t := Taken(s);
    assert t.queue == t.pushed[|t.pushed| - |t.queue|..];
  }

  lemma TakeKeepsInv<T>(s: Source<T>)
    requires Inv(s) && s.queue != [] && !s.disposed && s.waiting == Nobody
    ensures Inv(Taken(s))
  {
    TakeFits(s);
  }

  lemma SameItems<T>(s: Source<T>, t: Source<T>)
    requires ItemsFit(s) && t.queue == s.queue && t.pushed == s.pushed && t.delivered == s.delivered
    requires t.positions == s.positions && t.dropped == s.dropped && t.disposed == s.disposed
    ensures ItemsFit(t)
  {
  }

  lemma ReplyKeepsInv<T>(s: Source<T>, reply: Reply<T>)
    requires Inv(s) && (reply == Abnormal ==> WakesForNothing(s))
    ensures Inv(Replied(s, reply))
  {
    SameItems(s, Replied(s, reply));
    hide ItemsFit;
  }

  lemma SleepKeepsInv<T>(s: Source<T>)
    requires Inv(s) && !s.disposed && !HasNews(s)
    ensures Inv(s.(waiting := Asleep))
  {
    SameItems(s, s.(waiting := Asleep));
    hide ItemsFit;
  }

  lemma AskKeepsInv<T>(s: Source<T>)
    requires Inv(s)
    ensures Inv(Asked(s))
  {
    hide Inv, Taken, Replied;
    if s.disposed {
      ReplyKeepsInv(s, UseAfterDispose);
    } else if s.waiting != Nobody {
      ReplyKeepsInv(s, StillWaiting);
    } else if s.queue != [] {
      TakeKeepsInv(s);
    } else if s.finished {
      ReplyKeepsInv(s, Done);
    } else if IsError(s.error) {
      ReplyKeepsInv(s, Threw(s.error));
    } else {
      SleepKeepsInv(s);
    }
  }

  lemma AwakeKeepsInv<T>(s: Source<T>)
    requires Inv(s) && s.waiting == Woken
    ensures Inv(s.(waiting := Nobody)) && (!WakesForNothing(s) ==> HasNews(s)) && (s.disposed ==> IsError(s.error))
  {
    SameItems(s, s.(waiting := Nobody));
    hide ItemsFit;
  }

  lemma WakeKeepsInv<T>(s: Source<T>)
    requires Inv(s) && s.waiting == Woken
    ensures Inv(Awoken(s))
  {
    AwakeKeepsInv(s);
    hide Inv, Taken, Replied;
    var awake := s.(waiting := Nobody);
    if IsError(s.error) {
      ReplyKeepsInv(awake, Threw(s.error));
    } else if s.queue != [] {
      TakeKeepsInv(awake);
    } else if s.finished {
      ReplyKeepsInv(awake, Done);
    } else {
      ReplyKeepsInv(awake, Abnormal);
    }
  }

  lemma PushKeepsInv<T>(s: Source<T>, item: T)
    requires Inv(s)
    ensures Inv(Pushed(s, item))
  {
    PushKeepsItems(s, item);
    hide ItemsFit;
  }

  lemma NextKeepsInv<T>(s: Source<T>, step: Step<T>)
    requires Inv(s)
    ensures Inv(Next(s, step))
  {
    hide Inv, Pushed, Finished, Thrown, Disposed, Asked, Awoken;
    match step
    case Push(item) => PushKeepsInv(s, item);
    case Finish => FinishKeepsInv(s);
    case ThrowError(error) => ThrowKeepsInv(s, error);
    case Dispose => DisposeKeepsInv(s);
    case AskNext => AskKeepsInv(s);
    case Wake =>
      if s.waiting == Woken {
        WakeKeepsInv(s);
      }
  }

  lemma FinishKeepsInv<T>(s: Source<T>)
    requires Inv(s)
    ensures Inv(Finished(s))
  {
  }

  lemma ThrowKeepsInv<T>(s: Source<T>, error: Failure)
    requires Inv(s)
    ensures Inv(Next(s, ThrowError(error)))
  {
  }

  lemma DisposeKeepsInv<T>(s: Source<T>)
    requires Inv(s)
    ensures Inv(Disposed(s))
  {
  }

  lemma {:induction false} OptionsStay<T>(s: Source<T>, steps: seq<Step<T>>)
    ensures After(s, steps).max == s.max && After(s, steps).throws == s.throws
  {
    if steps != [] {
      OptionsStay(s, steps[..|steps| - 1]);
      NextKeepsOptions(After(s, steps[..|steps| - 1]), steps[|steps| - 1]);
      hide Next;
    }
  }

  lemma NextKeepsOptions<T>(s: Source<T>, step: Step<T>)
    ensures Next(s, step).max == s.max && Next(s, step).throws == s.throws
  {
  }

  lemma {:induction false} ReachedInv<T>(max: nat, throws: bool, steps: seq<Step<T>>)
    ensures Inv(After(Initial<T>(max, throws), steps))
    ensures After(Initial<T>(max, throws), steps).max == max && After(Initial<T>(max, throws), steps).throws == throws
  {
    OptionsStay(Initial<T>(max, throws), steps);
    if steps != [] {
      ReachedInv(max, throws, steps[..|steps| - 1]);
      NextKeepsInv(After(Initial<T>(max, throws), steps[..|steps| - 1]), steps[|steps| - 1]);
    }
  }

  // ------------------------------------------------------------------ results

  /**
   In drop mode the queue is never longer than `max`, and it is the newest items; the delivered ones
   are a subsequence of those before it.  So only items older than the whole queue are dropped.
   */
  lemma DropModeKeepsNewest<T>(max: nat, steps: seq<Step<T>>)
    ensures var s := After(Initial<T>(max, false), steps);
      && |s.queue| <= max
      && QueueIsNewest(s) && DeliveredInOrder(s)
      && (!s.disposed ==> s.dropped == |s.pushed| - |s.queue| - |s.delivered|)
  {
    ReachedInv(max, false, steps);
  }

  /** An item is dropped exactly if the queue was full, and then exactly one, the oldest. */
  lemma PushDropsExactlyIfFull<T>(max: nat, steps: seq<Step<T>>, item: T)
    requires PushAnswer(After(Initial<T>(max, false), steps)) == Accepted
    ensures var s := After(Initial<T>(max, false), steps); var t := Next(s, Push(item));
      && t.queue == (if |s.queue| == max then (s.queue + [item])[1..] else s.queue + [item])
      && t.dropped == s.dropped + if |s.queue| == max then 1 else 0
  {
    ReachedInv(max, false, steps);
  }

  /** In throw mode nothing is ever lost before the disposal, not even an item whose push threw. */
  lemma ThrowModeKeepsAll<T>(max: nat, steps: seq<Step<T>>)
    requires !After(Initial<T>(max, true), steps).disposed
    ensures var s := After(Initial<T>(max, true), steps); s.delivered + s.queue == s.pushed
  {
    ReachedInv(max, true, steps);
    hide After;
    AllKept(After(Initial<T>(max, true), steps));
  }

  lemma AllKept<T>(s: Source<T>)
    requires ItemsFit(s) && s.dropped == 0 && !s.disposed
    ensures s.delivered + s.queue == s.pushed
  {
    forall k | 0 <= k < |s.delivered| ensures s.delivered[k] == s.pushed[k] {
      assert s.positions[k] == k;
    }
    assert s.delivered == s.pushed[..|s.delivered|];
  }

  /** So in throw mode there is no bound: a push into a full buffer throws, and the buffer grows. */
  lemma {:induction false} ThrowModeIsUnbounded<T>(max: nat, item: T, length: nat)
    ensures var s := After(Initial<T>(max, true), seq(length, _ => Push(item)));
      && |s.queue| == length && PushAnswer(s) == if length >= max then Overflow else Accepted
  {
    var steps: seq<Step<T>> := seq(length, _ => Push(item));
    if length > 0 {
      ThrowModeIsUnbounded<T>(max, item, length - 1);
      assert steps[..length - 1] == seq(length - 1, _ => Push(item));
      PushesOnly(Initial<T>(max, true), item, length - 1);
      PlainPush(After(Initial<T>(max, true), steps[..length - 1]), item);
    }
    PushesOnly(Initial<T>(max, true), item, length);
  }

  lemma PlainPush<T>(s: Source<T>, item: T)
    requires s.throws && !s.disposed && !s.finished && !IsError(s.error)
    ensures |Next(s, Push(item)).queue| == |s.queue| + 1
  {
  }

  lemma {:induction false} PushesOnly<T>(s: Source<T>, item: T, length: nat)
    requires s.throws && !s.disposed && !s.finished && !IsError(s.error)
    ensures var t := After(s, seq(length, _ => Push(item)));
      t.throws && t.max == s.max && !t.disposed && !t.finished && t.error == s.error
  {
    if length > 0 {
      var steps: seq<Step<T>> := seq(length, _ => Push(item));
      assert steps[..length - 1] == seq(length - 1, _ => Push(item));
      PushesOnly(s, item, length - 1);
    }
  }

  /** When the end is announced, by a request or after a sleep, whatever was not dropped has been delivered. */
  lemma DoneMeansAllDelivered<T>(max: nat, throws: bool, steps: seq<Step<T>>, step: Step<T>)
    ensures var s := After(Initial<T>(max, throws), steps); var t := Next(s, step);
      t.replies == s.replies + [Done] && s.dropped == 0 ==> t.delivered == t.pushed
  {
    hide After;
    ReachedInv(max, throws, steps);
    var s := After(Initial<T>(max, throws), steps);
    if Next(s, step).replies == s.replies + [Done] {
      DoneWithEmptyQueue(s, step);
    }
  }

  lemma DoneWithEmptyQueue<T>(s: Source<T>, step: Step<T>)
    requires Inv(s) && Next(s, step).replies == s.replies + [Done]
    ensures s.queue == [] && !s.disposed && Next(s, step).delivered == s.delivered && Next(s, step).pushed == s.pushed
  {
    hide ItemsFit, Bounded;
    ProducersSayNothing(s, step);
    hide Pushed, Finished, Thrown, Disposed;
    assert Next(s, step).replies[|s.replies|] == Done;
  }

  lemma ProducersSayNothing<T>(s: Source<T>, step: Step<T>)
    ensures Next(s, step).replies != s.replies ==> step.AskNext? || step.Wake?
  {
  }

  /** An end, or a failure that the tests of the field see. */
  predicate EndsIt<T>(step: Step<T>) { step.Finish? || (step.ThrowError? && step.error.Truthy?) }

  /** The first such step of a run. */
  ghost predicate IsFirstEnd<T>(steps: seq<Step<T>>, k: nat) {
    k < |steps| && EndsIt(steps[k]) && forall j :: 0 <= j < k ==> !EndsIt(steps[j])
  }

  ghost predicate NoDispose<T>(steps: seq<Step<T>>) {
    forall k :: 0 <= k < |steps| ==> !steps[k].Dispose?
  }

  ghost predicate FirstEndIs<T>(steps: seq<Step<T>>, step: Step<T>) {
    exists k: nat :: IsFirstEnd(steps, k) && steps[k] == step
  }

  lemma FirstEndSnoc<T>(steps: seq<Step<T>>, last: Step<T>, step: Step<T>)
    ensures FirstEndIs(steps + [last], step) <==>
      FirstEndIs(steps, step) || (last == step && EndsIt(step) && forall j :: 0 <= j < |steps| ==> !EndsIt(steps[j]))
  {
    hide EndsIt;
    var all := steps + [last];
    assert forall j :: 0 <= j < |steps| ==> steps[j] == all[j];
    if k: nat :| IsFirstEnd(steps, k) && steps[k] == step {
      assert IsFirstEnd(all, k) && all[k] == step;
    }
    if last == step && EndsIt(step) && forall j :: 0 <= j < |steps| ==> !EndsIt(steps[j]) {
      assert IsFirstEnd(all, |steps|) && all[|steps|] == step;
    }
    if k: nat :| IsFirstEnd(all, k) && all[k] == step {
      if k < |steps| {
        assert IsFirstEnd(steps, k) && steps[k] == step;
      } else {
        assert forall j :: 0 <= j < |steps| ==> all[j] == steps[j];
      }
    }
  }

  ghost predicate NoEnd<T>(steps: seq<Step<T>>) {
    forall j :: 0 <= j < |steps| ==> !EndsIt(steps[j])
  }

  /** What the fields say of the end: that of the first step that ends it, or nothing. */
  ghost predicate EndFits<T>(s: Source<T>, steps: seq<Step<T>>) {
    && (s.finished <==> FirstEndIs(steps, Finish))
    && (IsError(s.error) ==> s.error.Truthy? && !s.finished)
    && (forall id: nat :: s.error == Truthy(id) <==> FirstEndIs(steps, ThrowError(Truthy(id))))
    && (NoEnd(steps) <==> !s.finished && !IsError(s.error))
    && !s.disposed
  }

  lemma NextEndFits<T>(s: Source<T>, steps: seq<Step<T>>, last: Step<T>)
    requires EndFits(s, steps) && !last.Dispose?
    ensures EndFits(Next(s, last), steps + [last])
  {
    FirstEndSnoc(steps, last, Finish);
    forall id: nat
      ensures FirstEndIs(steps + [last], ThrowError(Truthy(id))) <==>
        FirstEndIs(steps, ThrowError(Truthy(id))) || (last == ThrowError(Truthy(id)) && NoEnd(steps))
    {
      var failure: Step<T> := ThrowError(Truthy(id));
      FirstEndSnoc(steps, last, failure);
    }
    NoEndSnoc(steps, last);
    EndOfStep(s, last);
    hide FirstEndIs, NoEnd, Next;
  }

  lemma NoEndSnoc<T>(steps: seq<Step<T>>, last: Step<T>)
    ensures NoEnd(steps + [last]) <==> NoEnd(steps) && !EndsIt(last)
  {
    assert (steps + [last])[|steps|] == last;
    assert forall j :: 0 <= j < |steps| ==> (steps + [last])[j] == steps[j];
  }

  lemma EndOfStep<T>(s: Source<T>, step: Step<T>)
    requires !s.disposed && !step.Dispose?
    requires (IsError(s.error) ==> s.error.Truthy?) && !(s.finished && IsError(s.error))
    ensures var t := Next(s, step); var open := !s.finished && !IsError(s.error);
      && !t.disposed && (t.finished <==> s.finished || (open && step.Finish?))
      && (IsError(t.error) <==> IsError(s.error) || (open && EndsIt(step) && !step.Finish?))
      && (IsError(t.error) ==> t.error == if open then step.error else s.error)
  {
  }

  lemma {:induction false} ReachedEndFits<T>(max: nat, throws: bool, steps: seq<Step<T>>)
    requires NoDispose(steps)
    ensures EndFits(After(Initial<T>(max, throws), steps), steps)
  {
    hide EndFits, Next;
    if steps != [] {
      var front, last := steps[..|steps| - 1], steps[|steps| - 1];
      ReachedEndFits(max, throws, front);
      NextEndFits(After(Initial<T>(max, throws), front), front, last);
      assert front + [last] == steps;
    } else {
      NothingEnded<T>(max, throws);
    }
  }

  lemma NothingEnded<T>(max: nat, throws: bool)
    ensures EndFits(Initial<T>(max, throws), [])
  {
  }

  /**
   The consumer's answers before a disposal.  A request gets the oldest item; when there is none, what the first
   step that ends the source says; and when there is no such step, the consumer sleeps.  After a sleep a failure
   goes before the items.
   */
  lemma ConsumerAnswer<T>(max: nat, throws: bool, steps: seq<Step<T>>, id: nat)
    requires NoDispose(steps)
    ensures var s := After(Initial<T>(max, throws), steps); var asked, woken := Next(s, AskNext), Next(s, Wake);
      && (s.waiting == Nobody && s.queue != [] ==>
            asked.replies == s.replies + [Item(s.queue[0])] && asked.queue == s.queue[1..])
      && (s.waiting == Nobody && s.queue == [] ==>
            && (FirstEndIs(steps, Finish) ==> asked.replies == s.replies + [Done])
            && (FirstEndIs(steps, ThrowError(Truthy(id))) ==> asked.replies == s.replies + [Threw(Truthy(id))])
            && (NoEnd(steps) ==> asked.replies == s.replies && asked.waiting == Asleep))
      && (s.waiting != Nobody ==> asked.replies == s.replies + [StillWaiting])
      && (s.waiting == Woken && FirstEndIs(steps, ThrowError(Truthy(id))) ==>
            woken.replies == s.replies + [Threw(Truthy(id))])
      && (s.waiting == Woken && (FirstEndIs(steps, Finish) || NoEnd(steps)) ==>
            woken.replies == s.replies +
              [if s.queue != [] then Item(s.queue[0]) else if NoEnd(steps) then Abnormal else Done])
  {
    hide After, FirstEndIs, NoEnd;
    ReachedEndFits(max, throws, steps);
  }

  predicate Wakes<T>(s: Source<T>, step: Step<T>) {
    match step
    case Dispose => true
    case Push(_) => PushAnswer(s) == Accepted
    case Finish => !IsError(s.error)
    case ThrowError(_) => !s.finished && !IsError(s.error)
    case _ => false
  }

  /**
   A consumer sleeps only after a request.  It is woken by the first push that is accepted, by an end, a failure
   or the disposal, and by nothing else; and it stays so until it goes on.
   */
  lemma SleepsAndWakes<T>(s: Source<T>, step: Step<T>)
    requires !s.disposed && Enabled(s, step)
    ensures var t := Next(s, step);
      && (s.waiting == Nobody ==> (t.waiting == Nobody || (step.AskNext? && t.waiting == Asleep)))
      && (s.waiting == Woken ==> t.waiting == if step.Wake? then Nobody else Woken)
      && (s.waiting == Asleep ==> t.waiting == if Wakes(s, step) then Woken else Asleep)
  {
  }

  lemma {:induction false} DisposedExactly<T>(max: nat, throws: bool, steps: seq<Step<T>>)
    ensures After(Initial<T>(max, throws), steps).disposed <==> !NoDispose(steps)
  {
    hide Next;
    if steps != [] {
      var front, last := steps[..|steps| - 1], steps[|steps| - 1];
      DisposedExactly(max, throws, front);
      DisposesExactly(After(Initial<T>(max, throws), front), last);
      assert NoDispose(steps) <==> NoDispose(front) && !last.Dispose?;
    }
  }

  lemma DisposesExactly<T>(s: Source<T>, step: Step<T>)
    ensures Next(s, step).disposed <==> s.disposed || step.Dispose?
  {
  }

  /**
   What the producer and the consumer are told: that the source is disposed of, if it is; that it has ended or
   failed, if the first end says so; and a push that there is no room, if that is to throw.
   */
  lemma ProducerAnswer<T>(max: nat, throws: bool, steps: seq<Step<T>>, id: nat)
    ensures var s := After(Initial<T>(max, throws), steps);
      if !NoDispose(steps) then
        && PushAnswer(s) == FinishAnswer(s) == ThrowAnswer(s) == IsDisposed
        && (s.finished || s.error == Canceled)
        && (s.waiting == Nobody ==> Next(s, AskNext).replies == s.replies + [UseAfterDispose])
      else
        && (FirstEndIs(steps, Finish) ==>
              PushAnswer(s) == ThrowAnswer(s) == AlreadyFinished && FinishAnswer(s) == Accepted)
        && (FirstEndIs(steps, ThrowError(Truthy(id))) ==>
              PushAnswer(s) == ThrowAnswer(s) == FinishAnswer(s) == AlreadyFailed)
        && (NoEnd(steps) ==>
              && ThrowAnswer(s) == FinishAnswer(s) == Accepted
              && PushAnswer(s) == if throws && |s.queue| >= max then Overflow else Accepted)
  {
    hide After, FirstEndIs, NoEnd, NoDispose;
    DisposedExactly<T>(max, throws, steps);
    OptionsStay(Initial<T>(max, throws), steps);
    if NoDispose(steps) {
      ReachedEndFits(max, throws, steps);
    } else {
      DisposedIsOver(max, throws, steps);
    }
  }

  lemma {:induction false} DisposedIsOver<T>(max: nat, throws: bool, steps: seq<Step<T>>)
    ensures var s := After(Initial<T>(max, throws), steps);
      s.disposed ==> s.finished || s.error == Canceled
  {
    if steps != [] {
      DisposedIsOver(max, throws, steps[..|steps| - 1]);
      DisposedOverStays(After(Initial<T>(max, throws), steps[..|steps| - 1]), steps[|steps| - 1]);
      hide Next;
    }
  }

  lemma DisposedOverStays<T>(s: Source<T>, step: Step<T>)
    requires s.disposed ==> s.finished || s.error == Canceled
    ensures var t := Next(s, step); t.disposed ==> t.finished || t.error == Canceled
  {
  }

  ghost predicate NoFalsy<T>(steps: seq<Step<T>>) {
    forall k :: 0 <= k < |steps| ==> steps[k] != ThrowError(Falsy)
  }

  lemma {:induction false} NoFalsySeen<T>(s: Source<T>, steps: seq<Step<T>>)
    requires NoFalsy(steps) && !s.sawFalsy
    ensures !After(s, steps).sawFalsy
  {
    if steps != [] {
      NoFalsySeen(s, steps[..|steps| - 1]);
    }
  }

  /** A run without falsy failures that reaches the error about an abnormal state. */
  ghost predicate ReachesAbnormal<T(!new)>(max: nat, throws: bool) {
    exists steps: seq<Step<T>> :: NoFalsy(steps) && Abnormal in After(Initial<T>(max, throws), steps).replies
  }

  /** With truthy failures that error is reachable exactly without a buffer in drop mode. */
  lemma AbnormalExactlyWithoutBuffer<T(!new)>(max: nat, throws: bool, item: T)
    ensures ReachesAbnormal<T>(max, throws) <==> !throws && max == 0
  {
    if ReachesAbnormal<T>(max, throws) {
      var steps: seq<Step<T>> :| NoFalsy(steps) && Abnormal in After(Initial<T>(max, throws), steps).replies;
      ReachedInv(max, throws, steps);
      NoFalsySeen(Initial<T>(max, throws), steps);
    }
    if !throws && max == 0 {
      NoBufferExample(item);
      assert NoFalsy([AskNext, Push(item), Wake]);
    }
  }

  lemma NoBufferExample<T>(item: T)
    ensures After(Initial<T>(0, false), [AskNext, Push(item), Wake]).replies == [Abnormal]
  {
    ThreeSteps(Initial<T>(0, false), AskNext, Push(item), Wake);
    hide After;
    var asked := Next(Initial<T>(0, false), AskNext);
    assert asked == Initial<T>(0, false).(waiting := Asleep);
    var woken := Next(asked, Push(item));
    assert woken.queue == [] && woken.waiting == Woken && woken.replies == [];
  }

  lemma ThreeSteps<T>(s: Source<T>, a: Step<T>, b: Step<T>, c: Step<T>)
    ensures After(s, [a, b, c]) == Next(Next(Next(s, a), b), c)
  {
    hide Next;
    assert [a, b, c][..2] == [a, b] && [a, b][..1] == [a] && [a][..0] == [];
    assert After(s, [a]) == Next(s, a);
    assert After(s, [a, b]) == Next(Next(s, a), b);
  }

  /** A falsy failure wakes the consumer for nothing, whatever the buffer. */
  lemma FalsyFailureIsAbnormal<T>(max: nat, throws: bool)
    ensures After(Initial<T>(max, throws), [AskNext, ThrowError(Falsy), Wake]).replies == [Abnormal]
  {
    ThreeSteps<T>(Initial<T>(max, throws), AskNext, ThrowError(Falsy), Wake);
    hide After;
    var thrown := Next(Next(Initial<T>(max, throws), AskNext), ThrowError(Falsy));
    assert thrown.queue == [] && thrown.waiting == Woken && thrown.error == Falsy && thrown.replies == [];
  }

  predicate IsStranded<T>(s: Source<T>) {
    s.waiting == Asleep && HasNews(s)
  }

  /** A run that leaves the consumer asleep although there is something to tell it. */
  ghost predicate Strands<T(!new)>(max: nat, throws: bool) {
    exists steps: seq<Step<T>> :: IsStranded(After(Initial<T>(max, throws), steps))
  }

  /** The consumer may sleep on exactly if a push that threw left its item in a queue of no room. */
  lemma StrandsExactlyWithoutRoom<T(!new)>(max: nat, throws: bool, item: T)
    ensures Strands<T>(max, throws) <==> throws && max == 0
  {
    if Strands<T>(max, throws) {
      var steps: seq<Step<T>> :| IsStranded(After(Initial<T>(max, throws), steps));
      ReachedInv(max, throws, steps);
    }
    if throws && max == 0 {
      NoRoomExample(item);
      assert IsStranded(After(Initial<T>(max, throws), [AskNext, Push(item), AskNext]));
    }
  }

  lemma NoRoomExample<T>(item: T)
    ensures var s := After(Initial<T>(0, true), [AskNext, Push(item), AskNext]);
      s.waiting == Asleep && s.queue == [item]
  {
    ThreeSteps(Initial<T>(0, true), AskNext, Push(item), AskNext);
    hide After;
    var asked := Next(Initial<T>(0, true), AskNext);
    assert asked == Initial<T>(0, true).(waiting := Asleep);
    var pushed := Next(asked, Push(item));
    assert pushed.queue == [item] && pushed.waiting == Asleep;
  }

  lemma {:induction false} DisposedStays<T>(s: Source<T>, more: seq<Step<T>>)
    requires Inv(s) && s.disposed
    ensures var t := After(s, more);
      && Inv(t) && t.disposed && t.delivered == s.delivered && t.pushed == s.pushed
      && (t.waiting == s.waiting || t.waiting == Nobody)
  {
    if more != [] {
      DisposedStays(s, more[..|more| - 1]);
      NextKeepsInv(After(s, more[..|more| - 1]), more[|more| - 1]);
    }
  }

  /** After the disposal nothing is accepted or delivered, and a consumer who slept is told so. */
  lemma DisposalEndsAll<T>(max: nat, throws: bool, steps: seq<Step<T>>, more: seq<Step<T>>)
    ensures var s := Next(After(Initial<T>(max, throws), steps), Dispose); var t := After(s, more);
      && t.disposed && t.queue == [] && t.delivered == s.delivered && t.pushed == s.pushed
      && t.waiting != Asleep
      && (t.waiting == Woken ==> Next(t, Wake).replies == t.replies + [Threw(Canceled)])
  {
    hide ItemsFit, Bounded, After;
    ReachedInv(max, throws, steps);
    NextKeepsInv(After(Initial<T>(max, throws), steps), Dispose);
    DisposedStays(Next(After(Initial<T>(max, throws), steps), Dispose), more);
  }

  // ------------------------------------------------------------------ the class

  class ActiveAsyncDataSource<T> {
    const max: nat
    const throws: bool
    var queue: seq<T>
    var finished: bool
    var error: Failure
    var waiting: Waiting
    var disposed: bool
    ghost var pushed: seq<T>
    ghost var delivered: seq<T>
    ghost var positions: seq<nat>
    ghost var dropped: nat
    ghost var sawFalsy: bool
    ghost var replies: seq<Reply<T>>

    ghost function Model(): Source<T>
      reads this
    {
      Source(max, throws, queue, finished, error, waiting, disposed,
             pushed, delivered, positions, dropped, sawFalsy, replies)
    }

    constructor (max: nat, throws: bool)
      ensures Model() == Initial<T>(max, throws)
    {
      this.max, this.throws := max, throws;
      queue, finished, error, waiting, disposed := [], false, NoFailure, Nobody, false;
      pushed, delivered, positions, dropped, sawFalsy, replies := [], [], [], 0, false, [];
    }

    /** The loop of `push`; false if it throws instead. */
    method DropOldest() returns (ok: bool)
      modifies `queue, `dropped
      ensures ok == !(throws && |old(queue)| > max)
      ensures Model() == if ok then Fit(old(Model())) else old(Model())
    {
      while |queue| > max
        invariant throws || |old(queue)| <= max ==> queue == old(queue) && dropped == old(dropped)
        invariant |old(queue)| > max ==>
                    max <= |queue| <= |old(queue)| && queue == old(queue)[|old(queue)| - |queue|..]
                    && dropped == old(dropped) + |old(queue)| - |queue|
      {
        if throws {
          return false;
        }
        queue := queue[1..];
        dropped := dropped + 1;
      }
      return true;
    }

    method PushItem(item: T) returns (answer: Answer)
      modifies this
      ensures answer == PushAnswer(old(Model()))
      ensures Model() == Next(old(Model()), Push(item))
    {
      if disposed {
        return IsDisposed;
      } else if finished {
        return AlreadyFinished;
      } else if IsError(error) {
        return AlreadyFailed;
      }
      queue := queue + [item];
      pushed := pushed + [item];
      var ok := DropOldest();
      if !ok {
        return Overflow;
      }
      if waiting != Nobody {
        waiting := Woken;
      }
      return Accepted;
    }

    method FinishSource() returns (answer: Answer)
      modifies this
      ensures answer == FinishAnswer(old(Model())) && Model() == Next(old(Model()), Finish)
    {
      if disposed {
        return IsDisposed;
      } else if IsError(error) {
        return AlreadyFailed;
      }
      finished := true;
      if waiting != Nobody {
        waiting := Woken;
      }
      return Accepted;
    }

    method Fail(failure: Failure) returns (answer: Answer)
      requires failure.Falsy? || failure.Truthy?
      modifies this
      ensures answer == ThrowAnswer(old(Model())) && Model() == Next(old(Model()), ThrowError(failure))
    {
      if disposed {
        return IsDisposed;
      } else if finished {
        return AlreadyFinished;
      } else if IsError(error) {
        return AlreadyFailed;
      }
      error := failure;
      sawFalsy := sawFalsy || failure.Falsy?;
      if waiting != Nobody {
        waiting := Woken;
      }
      return Accepted;
    }

    method DisposeSource()
      modifies this
      ensures Model() == Next(old(Model()), Dispose)
    {
      if disposed {
        return;
      }
      if waiting != Nobody {
        error := Canceled;
        waiting := Woken;
      } else {
        finished := true;
      }
      queue := [];
      disposed := true;
    }

    method Take() returns (reply: seq<Reply<T>>)
      requires |queue| > 0
      modifies this
      ensures Model() == Taken(old(Model()))
      ensures reply == [Item(old(queue)[0])] && replies == old(replies) + reply
    {
      reply := [Item(queue[0])];
      delivered := delivered + [queue[0]];
      positions := positions + [if |queue| <= |pushed| then |pushed| - |queue| else 0];
      queue := queue[1..];
      replies := replies + reply;
    }

    /** `_next` up to where it sleeps; no reply means that it does.  `loopGuard` on the second time. */
    method AskForNext(loopGuard: bool) returns (reply: seq<Reply<T>>)
      requires loopGuard ==> !disposed && !IsError(error) && waiting == Nobody
      modifies this
      ensures Model() == if loopGuard then Awoken(old(Model())) else Next(old(Model()), AskNext)
      ensures replies == old(replies) + reply && (reply == [] ==> waiting == Asleep)
    {
      if disposed {
        reply := [UseAfterDispose];
      } else if waiting != Nobody {
        reply := [StillWaiting];
      } else if |queue| > 0 {
        reply := Take();
        return;
      } else if finished {
        reply := [Done];
      } else if IsError(error) {
        reply := [Threw(error)];
      } else if loopGuard {
        reply := [Abnormal];
      } else {
        waiting := Asleep;
        reply := [];
      }
      replies := replies + reply;
    }

    method WakeUp() returns (reply: seq<Reply<T>>)
      requires waiting == Woken
      modifies this
      ensures Model() == Next(old(Model()), Wake)
      ensures replies == old(replies) + reply && |reply| == 1
    {
      waiting := Nobody;
      if IsError(error) {
        reply := [Threw(error)];
        replies := replies + reply;
      } else if disposed {
        reply := [UseAfterDispose];
        replies := replies + reply;
      } else {
        reply := AskForNext(true);
      }
    }
  }
}
