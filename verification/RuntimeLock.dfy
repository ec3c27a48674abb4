/** The lock between the simulator thread and the server threads: RuntimeLock of src/thread.cc as
    interleaved steps of one waiter and any number of signallers. Every step is one access to the
    flag, the mutex or the condition variable. */
module RuntimeLock {
  import opened Common

  /** Where the waiter is in wait(). Testing, Blocking, Taking and Unlocking hold the mutex. */
  datatype Waiter = Outside | Locking | Testing | Blocking | Asleep | Taking | Unlocking

  /** Where a signaller is in ready(). Storing and Releasing hold the mutex. */
  datatype Signaller = Away | Loading | Wanting | Storing | Releasing | Notifying

  datatype Thread = TheWaiter | ASignaller(id: nat)

  /** An operation of the binary semaphore the lock stands for. */
  datatype Op = Set(caller: nat) | Take

  /** log lists the semaphore operations in the order they take effect; waits and calls count the
      completed calls of wait() and of ready(). */
  datatype State = State(
    ready: bool, owner: Option<Thread>, waiter: Waiter, signallers: map<nat, Signaller>,
    log: seq<Op>, waits: nat, calls: map<nat, nat>)

  datatype Event =
    | WaitCall | WaitLock | WaitTest | WaitBlock | WakeUnasked | WaitTake | WaitUnlock
    | ReadyCall(id: nat) | ReadyLoad(id: nat) | ReadyLock(id: nat) | ReadyStore(id: nat)
    | ReadyUnlock(id: nat) | ReadyNotify(id: nat)

  const INIT := State(false, None, Outside, map[], [], 0, map[])

  function At(s: State, i: nat): Signaller {
    if i in s.signallers then s.signallers[i] else Away
  }

  function CallsOf(s: State, i: nat): nat {
    if i in s.calls then s.calls[i] else 0
  }

  predicate Enabled(s: State, e: Event) {
    match e
    case WaitCall => s.waiter.Outside?
    case WaitLock => s.waiter.Locking? && s.owner.None?
    case WaitTest => s.waiter.Testing?
    case WaitBlock => s.waiter.Blocking?
    case WakeUnasked => s.waiter.Asleep?
    case WaitTake => s.waiter.Taking?
    case WaitUnlock => s.waiter.Unlocking?
    case ReadyCall(i) => At(s, i).Away?
    case ReadyLoad(i) => At(s, i).Loading?
    case ReadyLock(i) => At(s, i).Wanting? && s.owner.None?
    case ReadyStore(i) => At(s, i).Storing?
    case ReadyUnlock(i) => At(s, i).Releasing?
    case ReadyNotify(i) => At(s, i).Notifying?
  }

  function Move(s: State, i: nat, to: Signaller): State {
    s.(signallers := s.signallers[i := to])
  }

  function Finish(s: State, i: nat): State {
    Move(s, i, Away).(calls := s.calls[i := CallsOf(s, i) + 1])
  }

  /** One step. A wait tests the flag with the mutex held and gives the mutex up only by falling
      asleep; ready() tests it without the mutex and returns at once when it is set. */
  function Apply(s: State, e: Event): State {
    match e
    case WaitCall => s.(waiter := Locking)
    case WaitLock => s.(waiter := Testing, owner := Some(TheWaiter))
    case WaitTest => s.(waiter := if s.ready then Taking else Blocking)
    case WaitBlock => s.(waiter := Asleep, owner := None)
    case WakeUnasked => s.(waiter := Locking)
    case WaitTake => s.(waiter := Unlocking, ready := false, log := s.log + [Take])
    case WaitUnlock => s.(waiter := Outside, owner := None, waits := s.waits + 1)
    case ReadyCall(i) => Move(s, i, Loading)
    case ReadyLoad(i) =>
      if s.ready then Finish(s, i).(log := s.log + [Set(i)]) else Move(s, i, Wanting)
    case ReadyLock(i) => Move(s, i, Storing).(owner := Some(ASignaller(i)))
    case ReadyStore(i) => Move(s, i, Releasing).(ready := true, log := s.log + [Set(i)])
    case ReadyUnlock(i) => Move(s, i, Notifying).(owner := None)
    case ReadyNotify(i) => Finish(s, i).(waiter := if s.waiter.Asleep? then Locking else s.waiter)
  }

  // ---- the semaphore

  /** The flag after a list of operations; None: some Take found it clear. */
  function Replay(log: seq<Op>): Option<bool> {
    if log == [] then Some(false)
    else
      var before := Replay(log[..|log| - 1]);
      match log[|log| - 1]
      case Set(_) => if before.Some? then Some(true) else None
      case Take => if before == Some(true) then Some(false) else None
  }

  function Sets(log: seq<Op>, i: nat): nat {
    if log == [] then 0 else Sets(log[..|log| - 1], i) + if log[|log| - 1] == Set(i) then 1 else 0
  }

  function Takes(log: seq<Op>): nat {
    if log == [] then 0 else Takes(log[..|log| - 1]) + if log[|log| - 1] == Take then 1 else 0
  }

  /** How often an operation set the flag while it was clear. */
  function Raises(log: seq<Op>): nat {
    if log == [] then 0
    else
      var before := log[..|log| - 1];
      Raises(before) + if log[|log| - 1].Set? && Replay(before) == Some(false) then 1 else 0
  }

  lemma LogGrows(log: seq<Op>, op: Op)
    ensures forall i :: Sets(log + [op], i) == Sets(log, i) + if op == Set(i) then 1 else 0
    ensures Takes(log + [op]) == Takes(log) + if op == Take then 1 else 0
    ensures Replay(log + [op]) == match op
      case Set(_) => if Replay(log).Some? then Some(true) else None
      case Take => if Replay(log) == Some(true) then Some(false) else None
  {
    var r := log + [op];
    assert r[..|r| - 1] == log;
  }

  /** Every Take uses up one raising of the flag. */
  lemma {:induction false} TakesMatchRaises(log: seq<Op>)
    requires Replay(log).Some?
    ensures Takes(log) + (if Replay(log) == Some(true) then 1 else 0) == Raises(log)
  {
    if log != [] {
      TakesMatchRaises(log[..|log| - 1]);
    }
  }

  // ---- what every run keeps

  ghost predicate Mutex(s: State) {
    && (s.owner == Some(TheWaiter) <==>
        s.waiter.Testing? || s.waiter.Blocking? || s.waiter.Taking? || s.waiter.Unlocking?)
    && forall i :: s.owner == Some(ASignaller(i)) <==> At(s, i).Storing? || At(s, i).Releasing?
  }

  /** Whoever set the flag of a sleeping waiter has not notified yet. */
  ghost predicate NoLostWakeup(s: State) {
    && (s.waiter.Blocking? ==> !s.ready)
    && (s.waiter.Asleep? && s.ready ==> exists i :: At(s, i).Releasing? || At(s, i).Notifying?)
  }

  /** The operations of the log explain the flag, and every completed call stands for one of them,
      as does every call past its effect. */
  ghost predicate Linearized(s: State) {
    && (s.waiter.Taking? ==> s.ready)
    && Replay(s.log) == Some(s.ready)
    && Takes(s.log) == s.waits + (if s.waiter.Unlocking? then 1 else 0)
    && forall i :: Sets(s.log, i) ==
         CallsOf(s, i) + if At(s, i).Releasing? || At(s, i).Notifying? then 1 else 0
  }

  lemma StepKeepsMutex(s: State, e: Event)
    requires Mutex(s) && Enabled(s, e)
    ensures Mutex(Apply(s, e))
  {
    var t := Apply(s, e);
    forall i ensures t.owner == Some(ASignaller(i)) <==> At(t, i).Storing? || At(t, i).Releasing? {
      assert s.owner == Some(ASignaller(i)) <==> At(s, i).Storing? || At(s, i).Releasing?;
      if e.ReadyStore? || e.ReadyUnlock? {
        assert s.owner == Some(ASignaller(e.id));
      }
    }
  }

  lemma StepKeepsWakeups(s: State, e: Event)
    requires Mutex(s) && NoLostWakeup(s) && Enabled(s, e)
    ensures NoLostWakeup(Apply(s, e))
  {
    var t := Apply(s, e);
    if e.ReadyStore? {
      assert s.owner == Some(ASignaller(e.id)) && At(t, e.id).Releasing?;
    } else if t.waiter.Asleep? && t.ready && !e.WaitBlock? {
      var i :| At(s, i).Releasing? || At(s, i).Notifying?;
      assert At(t, i).Releasing? || At(t, i).Notifying?;
    }
  }

  lemma StepKeepsLog(s: State, e: Event)
    requires Mutex(s) && Linearized(s) && Enabled(s, e)
    ensures Linearized(Apply(s, e))
  {
    hide Replay, Takes, Sets;
    var t := Apply(s, e);
    if t.log != s.log {
      LogGrows(s.log, t.log[|t.log| - 1]);
      assert t.log == s.log + [t.log[|t.log| - 1]];
    }
    if e.ReadyStore? {
      assert s.owner == Some(ASignaller(e.id));
    }
  }

  // ---- runs

  /** es can happen from s, one event after the other. */
  ghost predicate CanHappen(s: State, es: seq<Event>)
    decreases |es|
  {
    es == [] || (Enabled(s, es[0]) && CanHappen(Apply(s, es[0]), es[1..]))
  }

  ghost function After(s: State, es: seq<Event>): State
    decreases |es|
  {
    if es == [] then s else After(Apply(s, es[0]), es[1..])
  }

  lemma {:induction false} RunKeeps(s: State, es: seq<Event>)
    requires Mutex(s) && NoLostWakeup(s) && Linearized(s) && CanHappen(s, es)
    ensures Mutex(After(s, es)) && NoLostWakeup(After(s, es)) && Linearized(After(s, es))
    decreases |es|
  {
    hide Mutex, NoLostWakeup, Linearized, Enabled, Apply;
    if es != [] {
      StepKeepsMutex(s, es[0]);
      StepKeepsWakeups(s, es[0]);
      StepKeepsLog(s, es[0]);
      RunKeeps(Apply(s, es[0]), es[1..]);
    }
  }

  /** In every interleaving the lock is an atomic binary semaphore: some order of one Set per
      ready() and one Take per wait(), each within its call, explains it; completed waits use up one
      raising each; and the waiter sleeps on a set flag only while a notification is coming. */
  lemma EveryRunIsASemaphore(es: seq<Event>)
    requires CanHappen(INIT, es)
    ensures var s := After(INIT, es);
      && Mutex(s) && NoLostWakeup(s) && Linearized(s)
      && s.waits + (if s.waiter.Unlocking? then 1 else 0) + (if s.ready then 1 else 0) == Raises(s.log)
  {
    RunKeeps(INIT, es);
    TakesMatchRaises(After(INIT, es).log);
  }

  // ---- no wait is stuck

  /** Events that neither begin a call nor wake the waiter for no reason. */
  ghost predicate Needed(e: Event) {
    !e.WaitCall? && !e.WakeUnasked? && !e.ReadyCall?
  }

  /** Steps the waiter still has to take, counting a wakeup it waits for. */
  function WaiterRank(w: Waiter): nat {
    match w
    case Outside => 6
    case Blocking => 5
    case Asleep => 4
    case Locking => 3
    case Testing => 2
    case Taking => 1
    case Unlocking => 0
  }

  function HolderRank(s: State): nat {
    if s.owner.Some? && s.owner.value.ASignaller? then
      (if At(s, s.owner.value.id).Storing? then 2 else 1)
    else 0
  }

  /** With the flag set, a wait() that has begun can always take it: by the steps already under way
      alone, without another signal and without an unasked wakeup. */
  lemma {:induction false} WaitCanFinish(s: State) returns (es: seq<Event>)
    requires Mutex(s) && NoLostWakeup(s) && s.ready && !s.waiter.Outside? && !s.waiter.Unlocking?
    ensures CanHappen(s, es) && forall e :: e in es ==> Needed(e)
    ensures Takes(After(s, es).log) == Takes(s.log) + 1
    decreases WaiterRank(s.waiter), HolderRank(s)
  {
    var e: Event;
    if s.owner.Some? && s.owner.value.ASignaller? {
      var i := s.owner.value.id;
      e := if At(s, i).Storing? then ReadyStore(i) else ReadyUnlock(i);
    } else {
      match s.waiter {
        case Asleep =>
          var i :| At(s, i).Releasing? || At(s, i).Notifying?;
          e := ReadyNotify(i);
        case Locking => e := WaitLock;
        case Testing => e := WaitTest;
        case _ => e := WaitTake;
      }
    }
    assert Enabled(s, e);
    StepKeepsMutex(s, e);
    StepKeepsWakeups(s, e);
    var t := Apply(s, e);
    var rest := [];
    if e.WaitTake? {
      LogGrows(s.log, Take);
    } else {
      rest := WaitCanFinish(t);
      TakesUnchanged(s, e);
    }
    es := [e] + rest;
    assert es[1..] == rest;
  }

  lemma TakesUnchanged(s: State, e: Event)
    requires !e.WaitTake?
    ensures Takes(Apply(s, e).log) == Takes(s.log)
  {
    if e.ReadyLoad? || e.ReadyStore? {
      LogGrows(s.log, Set(e.id));
    }
  }
}
