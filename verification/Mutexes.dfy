/**
 The mutex: callers, the resumptions of those who wait, releases and the disposal in any order.
 */
module Mutexes {
  import opened Wrappers

  /** `lock` and `withLock`, `raceTimeout`, and `waitUnLocked`. */
  datatype Kind = Lock | RaceTimeout | WaitUnlocked

  datatype Waiter = Waiter(kind: Kind, on: nat)

  datatype Event = Acquired(lock: nat) | Released(lock: nat)

  /**
   Locks and their promises are numbered as they are created, callers as they call.  `theLock` and
   `disposed` are fields of the program; `promises`, `resolved` and `waiters` the promises and those
   who await them; the rest is what has happened, `destroyed` counting the "destroyed" errors.
   */
  datatype Mutex = Mutex(theLock: Option<nat>, disposed: bool, promises: nat, resolved: set<nat>,
                         waiters: map<nat, Waiter>, calls: nat, owners: seq<nat>, log: seq<Event>,
                         destroyed: nat, rejected: nat)

  datatype Step = Call(kind: Kind) | TryLock | Resume(caller: nat) | TimesOut(caller: nat)
                | Release(lock: nat) | Dispose

  const INITIAL: Mutex := Mutex(None, false, 0, {}, map[], 0, [], [], 0, 0)

  function CriticalLock(m: Mutex, caller: nat): Mutex {
    if m.disposed then m.(destroyed := m.destroyed + 1)
    else m.(theLock := Some(m.promises), promises := m.promises + 1,
            owners := m.owners + [caller], log := m.log + [Acquired(m.promises)])
  }

  /** The loop of a waiting method from its head: wait for the lock there is, or go on. */
  function Attempt(m: Mutex, caller: nat, kind: Kind): Mutex {
    if m.theLock.Some? then m.(waiters := m.waiters[caller := Waiter(kind, m.theLock.value)])
    else
      var m := m.(waiters := m.waiters - {caller});
      if kind == WaitUnlocked then m else CriticalLock(m, caller)
  }

  function TriedLock(m: Mutex, caller: nat): Mutex {
    if m.theLock.Some? then m else CriticalLock(m, caller)
  }

  /** Releasing throws if the lock is not the present one, and does nothing once all is disposed. */
  function ReleasedLock(m: Mutex, lock: nat): Mutex {
    if m.disposed then m
    else if m.theLock != Some(lock) then m.(rejected := m.rejected + 1)
    else m.(theLock := None, resolved := m.resolved + {lock}, log := m.log + [Released(lock)])
  }

  function Disposed(m: Mutex): Mutex {
    if m.disposed then m else m.(disposed := true, theLock := Some(m.promises), promises := m.promises + 1)
  }

  predicate Enabled(m: Mutex, step: Step) {
    match step
    case Call(_) => true
    case TryLock => true
    case Resume(caller) => caller in m.waiters && m.waiters[caller].on in m.resolved
    case TimesOut(caller) => caller in m.waiters && m.waiters[caller].kind == RaceTimeout
    case Release(lock) => lock < |m.owners|
    case Dispose => true
  }

  function Next(m: Mutex, step: Step): Mutex {
    if !Enabled(m, step) then m else
      match step
      case Call(kind) => Attempt(m.(calls := m.calls + 1), m.calls, kind)
      case TryLock => TriedLock(m.(calls := m.calls + 1), m.calls)
      case Resume(caller) => Attempt(m, caller, m.waiters[caller].kind)
      case TimesOut(caller) => m.(waiters := m.waiters - {caller})
      case Release(lock) => ReleasedLock(m, lock)
      case Dispose => Disposed(m)
  }

  function After(m: Mutex, steps: seq<Step>): Mutex {
    if steps == [] then m else Next(After(m, steps[..|steps| - 1]), steps[|steps| - 1])
  }

  // ---------------------------------------------------------------- invariant

  /** Lock 0 is acquired and released, then lock 1, and so on. */
  ghost predicate Alternating(log: seq<Event>) {
    forall k :: 0 <= k < |log| ==> log[k] == if k % 2 == 0 then Acquired(k / 2) else Released(k / 2)
  }

  ghost predicate LogFits(m: Mutex) {
    && Alternating(m.log)
    && |m.owners| == (|m.log| + 1) / 2
    && m.promises == |m.owners| + (if m.disposed then 1 else 0)
    && (!m.disposed ==> m.theLock == (if |m.log| % 2 == 0 then None else Some(|m.log| / 2)))
    && (m.disposed ==> m.theLock == Some(|m.owners|))
    && (forall p :: p in m.resolved <==> 0 <= p < |m.log| / 2)
  }

  ghost predicate CallersFit(m: Mutex) {
    && (forall c :: c in m.waiters ==> c < m.calls && c !in m.owners && m.waiters[c].on < m.promises)
    && (forall k :: 0 <= k < |m.owners| ==> m.owners[k] < m.calls)
    && (forall j, k :: 0 <= j < k < |m.owners| ==> m.owners[j] != m.owners[k])
  }

  /** Whoever waits does so for the present lock, or has already been woken up. */
  ghost predicate NobodyStranded(m: Mutex) {
    !m.disposed ==> forall c :: c in m.waiters ==> m.waiters[c].on in m.resolved || m.theLock == Some(m.waiters[c].on)
  }

  ghost predicate Inv(m: Mutex) {
    LogFits(m) && CallersFit(m) && NobodyStranded(m) && m.destroyed == 0
  }

  lemma CriticalKeepsLog(m: Mutex, caller: nat)
    requires LogFits(m) && m.theLock.None?
    ensures LogFits(CriticalLock(m, caller))
  {
  }

  lemma CriticalKeepsCallers(m: Mutex, caller: nat)
    requires LogFits(m) && CallersFit(m) && m.theLock.None? && NobodyStranded(m)
    requires caller < m.calls && caller !in m.owners && caller !in m.waiters
    ensures CallersFit(CriticalLock(m, caller)) && NobodyStranded(CriticalLock(m, caller))
  {
    hide Alternating;
  }

  lemma WaitKeepsInv(m: Mutex, caller: nat, kind: Kind)
    requires Inv(m) && m.theLock.Some? && caller < m.calls && caller !in m.owners
    ensures Inv(m.(waiters := m.waiters[caller := Waiter(kind, m.theLock.value)]))
  {
    hide Alternating;
  }

  lemma ForgetKeepsInv(m: Mutex, caller: nat)
    requires Inv(m)
    ensures Inv(m.(waiters := m.waiters - {caller}))
  {
    hide Alternating;
  }

  lemma AttemptKeepsInv(m: Mutex, caller: nat, kind: Kind)
    requires Inv(m) && caller < m.calls && caller !in m.owners
    ensures Inv(Attempt(m, caller, kind))
  {
    hide LogFits, CallersFit, NobodyStranded;
    if m.theLock.Some? {
      WaitKeepsInv(m, caller, kind);
    } else {
      ForgetKeepsInv(m, caller);
      if kind != WaitUnlocked {
        TakeKeepsInv(m.(waiters := m.waiters - {caller}), caller);
      }
    }
  }

  lemma TakeKeepsInv(m: Mutex, caller: nat)
    requires Inv(m) && m.theLock.None? && caller < m.calls && caller !in m.owners && caller !in m.waiters
    ensures Inv(CriticalLock(m, caller))
  {
    CriticalKeepsLog(m, caller);
    CriticalKeepsCallers(m, caller);
    hide CallersFit, NobodyStranded, Alternating;
    assert LogFits(m);
    assert !m.disposed;
  }

  lemma ReleaseKeepsInv(m: Mutex, lock: nat)
    requires Inv(m)
    ensures Inv(ReleasedLock(m, lock))
  {
  }

  lemma DisposeKeepsInv(m: Mutex)
    requires Inv(m)
    ensures Inv(Disposed(m))
  {
  }

  lemma CallKeepsInv(m: Mutex)
    requires Inv(m)
    ensures Inv(m.(calls := m.calls + 1)) && m.calls !in m.owners && m.calls !in m.waiters
  {
  }

  lemma CallingKeepsInv(m: Mutex, kind: Kind)
    requires Inv(m)
    ensures Inv(Next(m, Call(kind)))
  {
    hide Inv, Attempt;
    CallKeepsInv(m);
    AttemptKeepsInv(m.(calls := m.calls + 1), m.calls, kind);
  }

  lemma TryKeepsInv(m: Mutex)
    requires Inv(m)
    ensures Inv(Next(m, TryLock))
  {
    hide Inv, CriticalLock;
    CallKeepsInv(m);
    if m.theLock.None? {
      TakeKeepsInv(m.(calls := m.calls + 1), m.calls);
    }
  }

  lemma ResumeKeepsInv(m: Mutex, caller: nat)
    requires Inv(m)
    ensures Inv(Next(m, Resume(caller)))
  {
    hide Attempt, LogFits, NobodyStranded;
    if Enabled(m, Resume(caller)) {
      AttemptKeepsInv(m, caller, m.waiters[caller].kind);
    }
  }

  lemma NextKeepsInv(m: Mutex, step: Step)
    requires Inv(m)
    ensures Inv(Next(m, step))
  {
    hide Inv, Attempt, TriedLock, ReleasedLock, Disposed;
    match step
    case Call(kind) => CallingKeepsInv(m, kind);
    case TryLock => TryKeepsInv(m);
    case Resume(caller) => ResumeKeepsInv(m, caller);
    case TimesOut(caller) => ForgetKeepsInv(m, caller);
    case Release(lock) => ReleaseKeepsInv(m, lock);
    case Dispose => DisposeKeepsInv(m);
  }

  lemma {:induction false} ReachedInv(steps: seq<Step>)
    ensures Inv(After(INITIAL, steps))
  {
    if steps != [] {
      ReachedInv(steps[..|steps| - 1]);
      NextKeepsInv(After(INITIAL, steps[..|steps| - 1]), steps[|steps| - 1]);
    }
  }

  // ------------------------------------------------------------------ results

  /** Somebody holds the lock: it has been acquired, and not released since. */
  ghost predicate Holds(m: Mutex, lock: nat) {
    Acquired(lock) in m.log && Released(lock) !in m.log
  }

  lemma {:induction false} HoldsExactlyLast(log: seq<Event>, lock: nat)
    requires Alternating(log)
    ensures Acquired(lock) in log <==> 2 * lock < |log|
    ensures Released(lock) in log <==> 2 * lock + 1 < |log|
  {
    if 2 * lock < |log| {
      assert log[2 * lock] == Acquired(lock);
    }
    if 2 * lock + 1 < |log| {
      assert log[2 * lock + 1] == Released(lock);
    }
  }

  /** Mutual exclusion: at most one lock is held; before the disposal it is the present one. */
  lemma AtMostOneHolder(steps: seq<Step>, a: nat, b: nat)
    ensures var m := After(INITIAL, steps);
      && (Holds(m, a) && Holds(m, b) ==> a == b)
      && (!m.disposed ==> (Holds(m, a) <==> m.theLock == Some(a)))
  {
    hide After, Alternating;
    ReachedInv(steps);
    HoldsExactlyLast(After(INITIAL, steps).log, a);
    HoldsExactlyLast(After(INITIAL, steps).log, b);
  }

  /** Acquisitions and releases alternate, and every caller acquires at most once. */
  lemma LocksAlternate(steps: seq<Step>)
    ensures var m := After(INITIAL, steps);
      && Alternating(m.log) && |m.owners| == (|m.log| + 1) / 2
      && (forall j, k :: 0 <= j < k < |m.owners| ==> m.owners[j] != m.owners[k])
      && (forall c :: c in m.waiters ==> c !in m.owners)
  {
    ReachedInv(steps);
  }

  /** Before the disposal a release is rejected exactly if that lock has been released before. */
  lemma RejectedExactlyIfRepeated(steps: seq<Step>, lock: nat)
    requires lock < |After(INITIAL, steps).owners|
    ensures var m := After(INITIAL, steps); var r := Next(m, Release(lock));
      && r.rejected == m.rejected + (if !m.disposed && Released(lock) in m.log then 1 else 0)
      && (m.disposed || Released(lock) in m.log ==> r == m.(rejected := r.rejected))
      && (!m.disposed && Released(lock) !in m.log ==> r.theLock.None? && r.log == m.log + [Released(lock)])
  {
    hide After;
    ReachedInv(steps);
    var m := After(INITIAL, steps);
    if !m.disposed {
      ReleasedExactlyIfPast(m, lock);
    }
  }

  /** The disposal takes place, once, and neither takes a lock nor gives one. */
  lemma DisposalAnswer(m: Mutex)
    ensures var t := Next(m, Dispose);
      && t.disposed && t.owners == m.owners && t.log == m.log && t.waiters == m.waiters
      && (m.disposed ==> t == m)
  {
  }

  lemma ReleasedExactlyIfPast(m: Mutex, lock: nat)
    requires LogFits(m) && !m.disposed && lock < |m.owners|
    ensures Released(lock) in m.log <==> m.theLock != Some(lock)
  {
    HoldsExactlyLast(m.log, lock);
  }

  /** The mutex is not disposed of, and nobody holds a lock. */
  ghost predicate IsFree(m: Mutex) {
    !m.disposed && forall lock: nat :: !Holds(m, lock)
  }

  lemma FreeExactly(m: Mutex)
    requires LogFits(m)
    ensures IsFree(m) <==> m.theLock.None?
  {
    if m.theLock.None? {
      forall lock: nat ensures !Holds(m, lock) {
        HoldsExactlyLast(m.log, lock);
      }
    } else if !m.disposed {
      HoldsExactlyLast(m.log, m.theLock.value);
      assert Holds(m, m.theLock.value);
    }
  }

  /** Caller `c` goes on from `m` to `t`: with a lock that it then holds, without one, or by waiting. */
  ghost predicate GetsLock(m: Mutex, c: nat, t: Mutex) {
    t.owners == m.owners + [c] && c !in t.waiters && Holds(t, |m.owners|) && t.log == m.log + [Acquired(|m.owners|)]
  }

  ghost predicate GoesWithout(m: Mutex, c: nat, t: Mutex) {
    t.owners == m.owners && t.log == m.log && c !in t.waiters
  }

  ghost predicate Waits(m: Mutex, c: nat, kind: Kind, t: Mutex) {
    t.owners == m.owners && t.log == m.log && c in t.waiters && t.waiters[c].kind == kind
  }

  lemma AcquiredIsHeld(m: Mutex, c: nat)
    requires Inv(m) && m.theLock.None? && c !in m.waiters
    ensures GetsLock(m, c, CriticalLock(m, c))
  {
    CriticalKeepsLog(m, c);
    var t := CriticalLock(m, c);
    assert m.promises == |m.owners| && !m.disposed;
    hide CallersFit, NobodyStranded;
    HoldsExactlyLast(t.log, |m.owners|);
  }

  lemma AttemptAnswer(m: Mutex, c: nat, kind: Kind)
    requires Inv(m) && c < m.calls && c !in m.owners
    ensures var t := Attempt(m, c, kind);
      if !IsFree(m) then Waits(m, c, kind, t)
      else if kind == WaitUnlocked then GoesWithout(m, c, t)
      else GetsLock(m, c, t)
  {
    FreeExactly(m);
    ForgetKeepsInv(m, c);
    hide Inv, CriticalLock, IsFree;
    if m.theLock.None? && kind != WaitUnlocked {
      AcquiredIsHeld(m.(waiters := m.waiters - {c}), c);
    }
  }

  /** Nobody else stops waiting, or waits for anything else. */
  lemma OthersGoOnWaiting(m: Mutex, step: Step, waiter: nat)
    requires Inv(m) && waiter in m.waiters && step != Resume(waiter) && step != TimesOut(waiter)
    ensures var t := Next(m, step); waiter in t.waiters && t.waiters[waiter].kind == m.waiters[waiter].kind
  {
  }

  /**
   Whoever calls when the mutex is free, or is woken then, has the lock, or goes on without one if it only
   waited for that; whoever finds it taken waits, and one who only tries goes on without.
   */
  lemma CallerAnswer(steps: seq<Step>, kind: Kind, waiter: nat)
    ensures var m := After(INITIAL, steps);
      && (if !IsFree(m) then Waits(m, m.calls, kind, Next(m, Call(kind)))
          else if kind == WaitUnlocked then GoesWithout(m, m.calls, Next(m, Call(kind)))
          else GetsLock(m, m.calls, Next(m, Call(kind))))
      && (if IsFree(m) then GetsLock(m, m.calls, Next(m, TryLock)) else GoesWithout(m, m.calls, Next(m, TryLock)))
      && (Enabled(m, Resume(waiter)) ==>
            if !IsFree(m) then Waits(m, waiter, m.waiters[waiter].kind, Next(m, Resume(waiter)))
            else if m.waiters[waiter].kind == WaitUnlocked then GoesWithout(m, waiter, Next(m, Resume(waiter)))
            else GetsLock(m, waiter, Next(m, Resume(waiter))))
      && (Enabled(m, TimesOut(waiter)) ==> GoesWithout(m, waiter, Next(m, TimesOut(waiter))))
  {
    hide After, LogFits, CallersFit, NobodyStranded, Attempt, CriticalLock;
    ReachedInv(steps);
    var m := After(INITIAL, steps);
    var called := m.(calls := m.calls + 1);
    CallKeepsInv(m);
    AttemptAnswer(called, m.calls, kind);
    FreeExactly(called);
    SameLog(m, called);
    if m.theLock.None? {
      AcquiredIsHeld(called, m.calls);
    }
    if Enabled(m, Resume(waiter)) {
      WaiterCalled(m, waiter);
      AttemptAnswer(m, waiter, m.waiters[waiter].kind);
    }
  }

  lemma SameLog(m: Mutex, t: Mutex)
    requires t.log == m.log && t.disposed == m.disposed
    ensures IsFree(m) == IsFree(t)
  {
    assert forall lock: nat :: Holds(m, lock) == Holds(t, lock);
  }

  lemma WaiterCalled(m: Mutex, c: nat)
    requires CallersFit(m) && c in m.waiters
    ensures c < m.calls && c !in m.owners
  {
  }

  /** The calls of a run, in their order. */
  function CallsOf(steps: seq<Step>): seq<Step> {
    if steps == [] then []
    else
      var last := steps[|steps| - 1];
      CallsOf(steps[..|steps| - 1]) + if last.Call? || last.TryLock? then [last] else []
  }

  /** Whoever owns or owned a lock asked for one; whoever waits did so by its call. */
  ghost predicate AskedFor(m: Mutex, calls: seq<Step>) {
    && m.calls == |calls|
    && (forall k :: 0 <= k < |m.owners| ==> m.owners[k] < |calls| && calls[m.owners[k]] != Call(WaitUnlocked))
    && (forall c :: c in m.waiters ==> c < |calls| && calls[c] == Call(m.waiters[c].kind))
  }

  lemma NextAskedFor(m: Mutex, step: Step, calls: seq<Step>)
    requires Inv(m) && AskedFor(m, calls)
    ensures AskedFor(Next(m, step), calls + if step.Call? || step.TryLock? then [step] else [])
  {
    hide Inv;
  }

  /** So nobody who only waits for the mutex to be free ever gets a lock. */
  lemma {:induction false} LocksAreAskedFor(steps: seq<Step>)
    ensures AskedFor(After(INITIAL, steps), CallsOf(steps))
  {
    hide Inv, Next, AskedFor;
    if steps != [] {
      var front := steps[..|steps| - 1];
      ReachedInv(front);
      LocksAreAskedFor(front);
      NextAskedFor(After(INITIAL, front), steps[|steps| - 1], CallsOf(front));
    } else {
      NobodyAskedYet();
    }
  }

  lemma NobodyAskedYet()
    ensures AskedFor(INITIAL, [])
  {
  }

  /** The "destroyed" error is never thrown. */
  lemma NeverDestroyedError(steps: seq<Step>)
    ensures After(INITIAL, steps).destroyed == 0
  {
    ReachedInv(steps);
  }

  /** Before the disposal, anyone who waits is next as soon as the lock is free. */
  lemma AnyWaiterMayBeNext(steps: seq<Step>, caller: nat)
    requires !After(INITIAL, steps).disposed && caller in After(INITIAL, steps).waiters
    ensures var m := After(INITIAL, steps);
      var free := if m.theLock.Some? then Next(m, Release(m.theLock.value)) else m;
      var next := Next(free, Resume(caller));
      && free.theLock.None? && Enabled(free, Resume(caller)) && caller !in next.waiters
      && (m.waiters[caller].kind != WaitUnlocked ==> next.theLock.Some? && next.owners == m.owners + [caller])
  {
    ReachedInv(steps);
  }

  /** Whoever does not race a timeout. */
  predicate Patient(m: Mutex, caller: nat) {
    caller in m.waiters && m.waiters[caller].kind != RaceTimeout
  }

  lemma {:induction false} DisposedStays(m: Mutex, more: seq<Step>)
    requires Inv(m) && m.disposed
    ensures Inv(After(m, more)) && After(m, more).disposed && After(m, more).log == m.log
    ensures After(m, more).owners == m.owners && After(m, more).rejected == m.rejected
    ensures forall c :: Patient(m, c) ==> Patient(After(m, more), c)
  {
    if more != [] {
      DisposedStays(m, more[..|more| - 1]);
      NextKeepsInv(After(m, more[..|more| - 1]), more[|more| - 1]);
    }
  }

  /**
   After the disposal nobody acquires, nothing is released or rejected, and who waits without a
   timeout waits forever, those who call only then included.
   */
  lemma NobodyAfterDispose(steps: seq<Step>, more: seq<Step>, kind: Kind)
    requires After(INITIAL, steps).disposed
    ensures var m := After(INITIAL, steps); var later := After(m, more); var called := Next(m, Call(kind));
      && later.owners == m.owners && later.log == m.log && later.rejected == m.rejected && later.theLock.Some?
      && (forall c :: Patient(m, c) ==> Patient(later, c))
      && (kind != RaceTimeout ==> Patient(After(called, more), m.calls))
  {
    ReachedInv(steps);
    var m := After(INITIAL, steps);
    NextKeepsInv(m, Call(kind));
    DisposedStays(m, more);
    DisposedStays(Next(m, Call(kind)), more);
    if kind != RaceTimeout {
      assert Patient(Next(m, Call(kind)), m.calls);
    }
  }

  // ------------------------------------------------------------------ the class

  class MutexObject {
    var theLock: Option<nat>
    var disposed: bool
    var promises: nat
    var resolved: set<nat>
    ghost var waiters: map<nat, Waiter>
    ghost var calls: nat
    ghost var owners: seq<nat>
    ghost var log: seq<Event>
    ghost var destroyed: nat
    ghost var rejected: nat

    ghost function Model(): Mutex
      reads this
    {
      Mutex(theLock, disposed, promises, resolved, waiters, calls, owners, log, destroyed, rejected)
    }

    constructor ()
      ensures Model() == INITIAL
    {
      theLock, disposed, promises, resolved := None, false, 0, {};
      waiters, calls, owners, log, destroyed, rejected := map[], 0, [], [], 0, 0;
    }

    /** The error of a destroyed mutex, or the number of the new lock. */
    method Critical(ghost caller: nat) returns (lock: Option<nat>)
      modifies this
      ensures Model() == CriticalLock(old(Model()), caller)
      ensures lock == if old(disposed) then None else theLock
    {
      if disposed {
        destroyed := destroyed + 1;
        return None;
      }
      theLock := Some(promises);
      promises := promises + 1;
      owners := owners + [caller];
      log := log + [Acquired(theLock.value)];
      return theLock;
    }

    /** One round of the waiting loop; `lock` is what the caller gets if it goes on with a lock. */
    method Round(ghost caller: nat, kind: Kind) returns (lock: Option<nat>)
      modifies this
      ensures Model() == Attempt(old(Model()), caller, kind)
      ensures lock.Some? ==> lock == theLock && old(theLock).None?
    {
      if theLock.Some? {
        waiters := waiters[caller := Waiter(kind, theLock.value)];
        return None;
      }
      waiters := waiters - {caller};
      if kind == WaitUnlocked {
        return None;
      }
      lock := Critical(caller);
    }

    method Try() returns (lock: Option<nat>)
      modifies this
      ensures Model() == Next(old(Model()), TryLock)
      ensures old(theLock).Some? ==> lock.None?
    {
      calls := calls + 1;
      if theLock.Some? {
        return None;
      }
      lock := Critical(calls - 1);
    }

    method ReleaseLock(current: nat) returns (ok: bool)
      requires current < |owners|
      modifies this
      ensures Model() == Next(old(Model()), Release(current))
      ensures ok == (rejected == old(rejected))
    {
      if disposed {
        return true;
      }
      if theLock != Some(current) {
        rejected := rejected + 1;
        return false;
      }
      theLock := None;
      resolved := resolved + {current};
      log := log + [Released(current)];
      return true;
    }

    method DisposeMutex()
      modifies this
      ensures Model() == Next(old(Model()), Dispose)
    {
      if disposed {
        return;
      }
      disposed := true;
      theLock := Some(promises);
      promises := promises + 1;
    }
  }
}
