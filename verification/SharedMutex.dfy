/** The readers/writer lock of the Agent (include/uxr/agent/utils/SharedMutex.hpp).

    Threads own any number of lock objects (`SharedLock`, `ExclusiveLock`) on one mutex.  Every pass through the
    critical section guarded by `mtx_` is one atomic step; between two steps any other
    lock object may act, so a sequence of steps is an arbitrary interleaving of any number of
    threads.  A lock object that waits on `cv_` is asleep until a notification or a
    spurious wake-up, and then has to evaluate its condition again.
  */
module SharedMutexes {

  type ThreadId = nat
  type LockId = nat

  import opened Options

  datatype Mode = Shared | Exclusive

  /** `Holding` is `locked_ == true`; `Notified` has left the wait but not yet re-evaluated its condition. */
  datatype Phase = Idle | Asleep | Notified | Holding

  datatype LockObject = LockObject(thread: ThreadId, mode: Mode, phase: Phase)

  datatype State = State(
    sharedCounter: int,
    exclusivelyLocked: bool,
    exclusiveThread: ThreadId,
    locks: map<LockId, LockObject>)
  {
    /** The condition handed to `cv_.wait`. */
    predicate CanAcquire(l: LockId)
      requires l in locks
    {
      match locks[l].mode
      case Shared => !exclusivelyLocked || locks[l].thread == exclusiveThread
      case Exclusive => sharedCounter == 0 && !exclusivelyLocked
    }

    function WithPhase(l: LockId, p: Phase): State
      requires l in locks
    {
      this.(locks := locks[l := locks[l].(phase := p)])
    }

    predicate Has(l: LockId, m: Mode, p: Phase) {
      l in locks && locks[l].mode == m && locks[l].phase == p
    }

    predicate IsAsleep(l: LockId) {
      l in locks && locks[l].phase.Asleep?
    }

    function Holders(m: Mode): set<LockId> {
      set l | l in locks && locks[l].mode == m && locks[l].phase.Holding?
    }

    function Sleepers(): set<LockId> {
      set l | l in locks && locks[l].phase.Asleep?
    }

    predicate Free() {
      sharedCounter == 0 && !exclusivelyLocked
    }
  }

  /** `Enter` is one pass through the critical section of `lock()`: the first evaluation of the condition or a
      re-evaluation after waking up.  `Leave` is the critical section of `unlock()`; `woken` is the waiter that
      `notify_one` happens to pick. */
  datatype Event = Enter(l: LockId) | Leave(l: LockId, woken: Option<LockId>) | Spurious(l: LockId)

  predicate Enabled(s: State, e: Event) {
    e.l in s.locks &&
    match e
    case Enter(l) => s.locks[l].phase.Idle? || s.locks[l].phase.Notified?
    case Spurious(l) => s.locks[l].phase.Asleep?
    case Leave(l, woken) =>
      && s.locks[l].phase.Holding?
      && (woken.Some? ==> woken.value in s.Sleepers())
      && (woken.Some? <==> s.locks[l].mode.Shared? && s.sharedCounter == 1 && s.Sleepers() != {})
  }

  function Acquired(s: State, l: LockId): State
    requires l in s.locks
  {
    var t := s.WithPhase(l, Holding);
    match s.locks[l].mode
    case Shared => t.(sharedCounter := s.sharedCounter + 1)
    case Exclusive => t.(exclusivelyLocked := true, exclusiveThread := s.locks[l].thread)
  }

  function Woken(o: LockObject): LockObject {
    if o.phase.Asleep? then o.(phase := Notified) else o
  }

  function NotifyAll(locks: map<LockId, LockObject>): map<LockId, LockObject> {
    map l | l in locks :: Woken(locks[l])
  }

  function Step(s: State, e: Event): State
    requires Enabled(s, e)
  {
    match e
    case Enter(l) => if s.CanAcquire(l) then Acquired(s, l) else s.WithPhase(l, Asleep)
    case Spurious(l) => s.WithPhase(l, Notified)
    case Leave(l, woken) =>
      var t := s.WithPhase(l, Idle);
      match s.locks[l].mode
      case Shared =>
        var u := t.(sharedCounter := s.sharedCounter - 1);
        if woken.Some? then u.WithPhase(woken.value, Notified) else u
      case Exclusive =>
        t.(exclusivelyLocked := false, locks := NotifyAll(t.locks))
  }

  /** The mutex together with the lock objects that refer to it; each method is one critical section. */
  class SharedMutex {
    var sharedCounter: int
    var exclusivelyLocked: bool
    var exclusiveThread: ThreadId
    var locks: map<LockId, LockObject>

    ghost function View(): State
      reads this
    {
      State(sharedCounter, exclusivelyLocked, exclusiveThread, locks)
    }

    constructor (objects: map<LockId, LockObject>)
      requires forall l :: l in objects ==> objects[l].phase.Idle?
      ensures Init(View()) && locks == objects
    {
      sharedCounter := 0;
      exclusivelyLocked := false;
      locks := objects;
    }

    method SharedEnter(l: LockId)
      requires Enabled(View(), Enter(l)) && locks[l].mode.Shared?
      modifies this
      ensures View() == Step(old(View()), Enter(l))
    {
      if !exclusivelyLocked || locks[l].thread == exclusiveThread {
        sharedCounter := sharedCounter + 1;
        locks := locks[l := locks[l].(phase := Holding)];
      } else {
        locks := locks[l := locks[l].(phase := Asleep)];
      }
    }

    method ExclusiveEnter(l: LockId)
      requires Enabled(View(), Enter(l)) && locks[l].mode.Exclusive?
      modifies this
      ensures View() == Step(old(View()), Enter(l))
    {
      if sharedCounter == 0 && !exclusivelyLocked {
        exclusivelyLocked := true;
        exclusiveThread := locks[l].thread;
        locks := locks[l := locks[l].(phase := Holding)];
      } else {
        locks := locks[l := locks[l].(phase := Asleep)];
      }
    }

    method SharedLeave(l: LockId, woken: Option<LockId>)
      requires Enabled(View(), Leave(l, woken)) && locks[l].mode.Shared?
      modifies this
      ensures View() == Step(old(View()), Leave(l, woken))
    {
      sharedCounter := sharedCounter - 1;
      locks := locks[l := locks[l].(phase := Idle)];
      if sharedCounter == 0 && woken.Some? {
        locks := locks[woken.value := locks[woken.value].(phase := Notified)];
      }
    }

    method ExclusiveLeave(l: LockId)
      requires Enabled(View(), Leave(l, None)) && locks[l].mode.Exclusive?
      modifies this
      ensures View() == Step(old(View()), Leave(l, None))
    {
      exclusivelyLocked := false;
      locks := locks[l := locks[l].(phase := Idle)];
      locks := map k | k in locks :: Woken(locks[k]);
    }
  }

  // ---------- what every step keeps ----------

  predicate Init(s: State) {
    && s.sharedCounter == 0
    && !s.exclusivelyLocked
    && forall l :: l in s.locks ==> s.locks[l].phase.Idle?
  }

  /** The fields count and name the holders, and whoever holds the mutex beside an exclusive holder is its own thread.
      */
  ghost predicate MutualExclusion(s: State) {
    && s.sharedCounter == |s.Holders(Shared)|
    && |s.Holders(Exclusive)| == (if s.exclusivelyLocked then 1 else 0)
    && (s.exclusivelyLocked ==>
          forall l :: l in s.locks && s.locks[l].phase.Holding? ==> s.locks[l].thread == s.exclusiveThread)
  }

  /** A shared waiter sleeps only while somebody holds the mutex exclusively. */
  ghost predicate SharedWaitersBlocked(s: State) {
    !s.exclusivelyLocked ==> forall l :: !s.Has(l, Shared, Asleep)
  }

  /** A free mutex with a sleeper also has a woken waiter whose re-evaluation will succeed. */
  ghost predicate NoLostWakeUp(s: State) {
    s.Free() && (exists l :: s.IsAsleep(l)) ==>
      exists l :: l in s.locks && s.locks[l].phase.Notified? && s.CanAcquire(l)
  }

  ghost predicate Inv(s: State) {
    MutualExclusion(s) && SharedWaitersBlocked(s) && NoLostWakeUp(s)
  }

  ghost predicate IsRun(states: seq<State>, events: seq<Event>) {
    && |states| == |events| + 1
    && Init(states[0])
    && forall i :: 0 <= i < |events| ==> Enabled(states[i], events[i]) && states[i + 1] == Step(states[i], events[i])
  }

  /** Only the stepping lock object gains or loses the mutex. */
  lemma HoldersAfterStep(s: State, e: Event, m: Mode)
    requires Enabled(s, e)
    ensures e.Enter? && s.CanAcquire(e.l) && s.locks[e.l].mode == m ==> Step(s, e).Holders(m) == s.Holders(m) + {e.l}
    ensures e.Leave? && s.locks[e.l].mode == m ==> Step(s, e).Holders(m) == s.Holders(m) - {e.l}
    ensures e.Spurious? || s.locks[e.l].mode != m || (e.Enter? && !s.CanAcquire(e.l)) ==>
              Step(s, e).Holders(m) == s.Holders(m)
  {
  }

  lemma StepKeepsExclusion(s: State, e: Event)
    requires MutualExclusion(s) && Enabled(s, e)
    ensures MutualExclusion(Step(s, e))
  {
    HoldersAfterStep(s, e, Shared);
    HoldersAfterStep(s, e, Exclusive);
    if e.Leave? {
      assert e.l in s.Holders(s.locks[e.l].mode);
    }
    StepKeepsOwner(s, e);
  }

  lemma StepKeepsOwner(s: State, e: Event)
    requires MutualExclusion(s) && Enabled(s, e)
    ensures var t := Step(s, e);
            t.exclusivelyLocked ==>
              forall l :: l in t.locks && t.locks[l].phase.Holding? ==> t.locks[l].thread == t.exclusiveThread
  {
    var t := Step(s, e);
    if t.exclusivelyLocked && !s.exclusivelyLocked {
      assert s.Holders(Shared) == {} == s.Holders(Exclusive);
      forall l | l in t.locks && t.locks[l].phase.Holding?
        ensures t.locks[l].thread == t.exclusiveThread
      {
        assert l !in s.Holders(Shared) && l !in s.Holders(Exclusive);
      }
    }
  }

  lemma StepKeepsWaitersBlocked(s: State, e: Event)
    requires SharedWaitersBlocked(s) && Enabled(s, e)
    ensures SharedWaitersBlocked(Step(s, e))
  {
    var t := Step(s, e);
    if !t.exclusivelyLocked {
      forall l
        ensures !t.Has(l, Shared, Asleep)
      {
        assert !s.exclusivelyLocked ==> !s.Has(l, Shared, Asleep);
      }
    }
  }

  lemma StepKeepsWakeUps(s: State, e: Event)
    requires Inv(s) && Enabled(s, e)
    ensures NoLostWakeUp(Step(s, e))
  {
    var t := Step(s, e);
    if t.Free() && exists k :: t.IsAsleep(k) {
      var k :| t.IsAsleep(k);
      match e {
        case Enter(_) =>
        case Spurious(l) =>
          assert t.locks[l].phase.Notified? && t.CanAcquire(l);
        case Leave(l, woken) =>
          if s.locks[l].mode.Shared? {
            assert k in s.Sleepers();
            assert t.locks[woken.value].phase.Notified? && t.CanAcquire(woken.value);
          }
      }
    }
  }

  lemma {:induction false} RunKeepsInv(states: seq<State>, events: seq<Event>, i: nat)
    requires IsRun(states, events) && i < |states|
    ensures Inv(states[i])
  {
    if i == 0 {
      assert states[0].Holders(Shared) == states[0].Holders(Exclusive) == {};
    } else {
      RunKeepsInv(states, events, i - 1);
      StepKeepsExclusion(states[i - 1], events[i - 1]);
      StepKeepsWaitersBlocked(states[i - 1], events[i - 1]);
      StepKeepsWakeUps(states[i - 1], events[i - 1]);
    }
  }

  /** Mutual exclusion at every point of every run: one exclusive holder, shared with nobody but its own thread. */
  lemma MutualExclusionOnRuns(states: seq<State>, events: seq<Event>, i: nat, e: LockId, l: LockId)
    requires IsRun(states, events) && i < |states|
    requires states[i].Has(e, Exclusive, Holding)
    requires l in states[i].locks && states[i].locks[l].phase.Holding? && l != e
    ensures states[i].locks[l].mode.Shared? && states[i].locks[l].thread == states[i].locks[e].thread
  {
    RunKeepsInv(states, events, i);
    var holders := states[i].Holders(Exclusive);
    assert e in holders;
    assert |holders - {e}| == 0;
    assert l !in holders - {e};
  }

  /** Whenever nobody holds the mutex and somebody waits, asleep or woken, some woken waiter gets the mutex by its
      next step. */
  lemma WaitersProgress(states: seq<State>, events: seq<Event>, i: nat, w: LockId) returns (l: LockId)
    requires IsRun(states, events) && i < |states|
    requires forall k :: k in states[i].locks ==> !states[i].locks[k].phase.Holding?
    requires w in states[i].locks && (states[i].locks[w].phase.Asleep? || states[i].locks[w].phase.Notified?)
    ensures l in states[i].locks && states[i].locks[l].phase.Notified?
    ensures Step(states[i], Enter(l)).locks[l].phase.Holding?
  {
    var s := states[i];
    RunKeepsInv(states, events, i);
    assert s.Holders(Shared) == s.Holders(Exclusive) == {};
    assert s.Free();
    if s.IsAsleep(w) {
      l :| l in s.locks && s.locks[l].phase.Notified? && s.CanAcquire(l);
    } else {
      l := w;
    }
  }

  /** A thread that holds the mutex exclusively never blocks on a shared lock of its own. */
  lemma OwnSharedLockNeverBlocks(states: seq<State>, events: seq<Event>, i: nat, e: LockId, l: LockId)
    requires IsRun(states, events) && i < |states|
    requires states[i].Has(e, Exclusive, Holding)
    requires Enabled(states[i], Enter(l)) && states[i].locks[l].mode.Shared?
    requires states[i].locks[l].thread == states[i].locks[e].thread
    ensures Step(states[i], Enter(l)).Has(l, Shared, Holding)
  {
    RunKeepsInv(states, events, i);
    assert e in states[i].Holders(Exclusive);
  }

  /** In every run, by the holders alone: a shared lock is granted exactly if nobody else holds exclusively. */
  lemma ReaderEntersIff(states: seq<State>, events: seq<Event>, i: nat, l: LockId)
    requires IsRun(states, events) && i < |states|
    requires Enabled(states[i], Enter(l)) && states[i].locks[l].mode.Shared?
    ensures var t := Step(states[i], Enter(l));
            && (l in t.Holders(Shared) <==>
                forall e :: e in states[i].Holders(Exclusive) ==>
                  states[i].locks[e].thread == states[i].locks[l].thread)
            && (l !in t.Holders(Shared) ==> t.IsAsleep(l))
  {
    RunKeepsInv(states, events, i);
  }

  /** In every run, by the holders alone: an exclusive lock is granted exactly if nobody holds the mutex. */
  lemma WriterEntersIff(states: seq<State>, events: seq<Event>, i: nat, l: LockId)
    requires IsRun(states, events) && i < |states|
    requires Enabled(states[i], Enter(l)) && states[i].locks[l].mode.Exclusive?
    ensures var t := Step(states[i], Enter(l));
            && (l in t.Holders(Exclusive) <==> states[i].Holders(Shared) == {} && states[i].Holders(Exclusive) == {})
            && (l !in t.Holders(Exclusive) ==> t.IsAsleep(l))
  {
    RunKeepsInv(states, events, i);
  }

  /** Whoever sleeps is woken by the writer that leaves; the last reader that leaves wakes exactly one, any other
      none. */
  lemma LeavingWakes(s: State, l: LockId, woken: Option<LockId>)
    requires Enabled(s, Leave(l, woken))
    ensures var t := Step(s, Leave(l, woken));
            && (s.locks[l].mode.Exclusive? ==> t.Sleepers() == {})
            && (s.locks[l].mode.Shared? && s.sharedCounter > 1 ==> t.Sleepers() == s.Sleepers())
            && (s.locks[l].mode.Shared? && s.sharedCounter == 1 && s.Sleepers() != {} ==>
                  woken.Some? && woken.value in s.Sleepers() && t.Sleepers() == s.Sleepers() - {woken.value})
            && t.locks.Keys == s.locks.Keys && t.locks[l].phase.Idle?
  {
  }
}
