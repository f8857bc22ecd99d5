/** The writer-preferring readers/writer lock (include/uxr/agent/utils/SharedMutexPriority.hpp).

    A writer first announces itself by raising `exclusive_counter_` and only then enters the critical section.
    The steps are those of `SharedMutexes` with this extra phase; the increment, which the source makes outside
    `mtx_`, is taken as one atomic step.

    Safety holds in every run.  The absence of lost wake-ups does not: `WakeUpIsLost` is a run that
    ends with a free mutex, a sleeping writer, a sleeping reader and nobody to wake them.
    `WakeUpKeptIffUsefulChoice` and `RunsWithUsefulChoices` say exactly which step is to blame.
  */
module SharedMutexesPriority {

  import opened Options
  import opened SharedMutexes

  datatype WPhase = WIdle | Announced | WAsleep | WNotified | WHolding

  datatype WLock = WLock(thread: ThreadId, mode: Mode, phase: WPhase)

  datatype WState = WState(
    sharedCounter: int,
    exclusiveCounter: int,
    exclusivelyLocked: bool,
    exclusiveThread: ThreadId,
    locks: map<LockId, WLock>)
  {
    /** The condition handed to `cv_.wait`. */
    predicate CanAcquire(l: LockId)
      requires l in locks
    {
      match locks[l].mode
      case Shared => !(exclusivelyLocked || exclusiveCounter != 0) || locks[l].thread == exclusiveThread
      case Exclusive => sharedCounter == 0 && !exclusivelyLocked
    }

    function WithPhase(l: LockId, p: WPhase): WState
      requires l in locks
    {
      this.(locks := locks[l := locks[l].(phase := p)])
    }

    function Holders(m: Mode): set<LockId> {
      set l | l in locks && locks[l].mode == m && locks[l].phase.WHolding?
    }

    /** The writers that have announced themselves and not yet released the mutex. */
    function Writers(): set<LockId> {
      set l | l in locks && locks[l].mode.Exclusive? && !locks[l].phase.WIdle?
    }

    function Sleepers(): set<LockId> {
      set l | l in locks && locks[l].phase.WAsleep?
    }

    predicate IsAsleep(l: LockId) {
      l in locks && locks[l].phase.WAsleep?
    }

    /** A lock object that is awake, has yet to evaluate its condition, and would find it true. */
    predicate IsReady(l: LockId) {
      l in locks && (locks[l].phase.WNotified? || locks[l].phase.Announced?) && CanAcquire(l)
    }

    predicate Free() {
      sharedCounter == 0 && !exclusivelyLocked
    }
  }

  datatype WEvent =
    | Announce(l: LockId)
    | WEnter(l: LockId)
    | WLeave(l: LockId, woken: Option<LockId>)
    | WSpurious(l: LockId)

  predicate WEnabled(s: WState, e: WEvent) {
    e.l in s.locks &&
    match e
    case Announce(l) => s.locks[l].mode.Exclusive? && s.locks[l].phase.WIdle?
    case WEnter(l) =>
      || s.locks[l].phase.WNotified?
      || s.locks[l].phase == (if s.locks[l].mode.Shared? then WIdle else Announced)
    case WSpurious(l) => s.locks[l].phase.WAsleep?
    case WLeave(l, woken) =>
      && s.locks[l].phase.WHolding?
      && (woken.Some? ==> woken.value in s.Sleepers())
      && (woken.Some? <==> s.locks[l].mode.Shared? && s.sharedCounter == 1 && s.Sleepers() != {})
  }

  function WAcquired(s: WState, l: LockId): WState
    requires l in s.locks
  {
    var t := s.WithPhase(l, WHolding);
    match s.locks[l].mode
    case Shared => t.(sharedCounter := s.sharedCounter + 1)
    case Exclusive => t.(exclusivelyLocked := true, exclusiveThread := s.locks[l].thread)
  }

  function WWoken(o: WLock): WLock {
    if o.phase.WAsleep? then o.(phase := WNotified) else o
  }

  function WStep(s: WState, e: WEvent): WState
    requires WEnabled(s, e)
  {
    match e
    case Announce(l) => s.WithPhase(l, Announced).(exclusiveCounter := s.exclusiveCounter + 1)
    case WEnter(l) => if s.CanAcquire(l) then WAcquired(s, l) else s.WithPhase(l, WAsleep)
    case WSpurious(l) => s.WithPhase(l, WNotified)
    case WLeave(l, woken) =>
      var t := s.WithPhase(l, WIdle);
      match s.locks[l].mode
      case Shared =>
        var u := t.(sharedCounter := s.sharedCounter - 1);
        if woken.Some? then u.WithPhase(woken.value, WNotified) else u
      case Exclusive =>
        t.(exclusiveCounter := s.exclusiveCounter - 1,
           exclusivelyLocked := false,
           locks := map k | k in t.locks :: WWoken(t.locks[k]))
  }

  class SharedMutexPriority {
    var sharedCounter: int
    var exclusiveCounter: int
    var exclusivelyLocked: bool
    var exclusiveThread: ThreadId
    var locks: map<LockId, WLock>

    ghost function View(): WState
      reads this
    {
      WState(sharedCounter, exclusiveCounter, exclusivelyLocked, exclusiveThread, locks)
    }

    constructor (objects: map<LockId, WLock>)
      requires forall l :: l in objects ==> objects[l].phase.WIdle?
      ensures WInit(View()) && locks == objects
    {
      sharedCounter := 0;
      exclusiveCounter := 0;
      exclusivelyLocked := false;
      locks := objects;
    }

    method SharedEnter(l: LockId)
      requires WEnabled(View(), WEnter(l)) && locks[l].mode.Shared?
      modifies this
      ensures View() == WStep(old(View()), WEnter(l))
    {
      if !(exclusivelyLocked || exclusiveCounter != 0) || locks[l].thread == exclusiveThread {
        sharedCounter := sharedCounter + 1;
        locks := locks[l := locks[l].(phase := WHolding)];
      } else {
        locks := locks[l := locks[l].(phase := WAsleep)];
      }
    }

    method ExclusiveAnnounce(l: LockId)
      requires WEnabled(View(), Announce(l))
      modifies this
      ensures View() == WStep(old(View()), Announce(l))
    {
      exclusiveCounter := exclusiveCounter + 1;
      locks := locks[l := locks[l].(phase := Announced)];
    }

    method ExclusiveEnter(l: LockId)
      requires WEnabled(View(), WEnter(l)) && locks[l].mode.Exclusive?
      modifies this
      ensures View() == WStep(old(View()), WEnter(l))
    {
      if sharedCounter == 0 && !exclusivelyLocked {
        exclusivelyLocked := true;
        exclusiveThread := locks[l].thread;
        locks := locks[l := locks[l].(phase := WHolding)];
      } else {
        locks := locks[l := locks[l].(phase := WAsleep)];
      }
    }

    method SharedLeave(l: LockId, woken: Option<LockId>)
      requires WEnabled(View(), WLeave(l, woken)) && locks[l].mode.Shared?
      modifies this
      ensures View() == WStep(old(View()), WLeave(l, woken))
    {
      sharedCounter := sharedCounter - 1;
      locks := locks[l := locks[l].(phase := WIdle)];
      if sharedCounter == 0 && woken.Some? {
        locks := locks[woken.value := locks[woken.value].(phase := WNotified)];
      }
    }

    method ExclusiveLeave(l: LockId)
      requires WEnabled(View(), WLeave(l, None)) && locks[l].mode.Exclusive?
      modifies this
      ensures View() == WStep(old(View()), WLeave(l, None))
    {
      exclusiveCounter := exclusiveCounter - 1;
      exclusivelyLocked := false;
      locks := locks[l := locks[l].(phase := WIdle)];
      locks := map k | k in locks :: WWoken(locks[k]);
    }
  }

  // ---------- safety ----------

  predicate WInit(s: WState) {
    && s.sharedCounter == 0
    && s.exclusiveCounter == 0
    && !s.exclusivelyLocked
    && forall l :: l in s.locks ==> s.locks[l].phase.WIdle?
  }

  ghost predicate WExclusion(s: WState) {
    && s.sharedCounter == |s.Holders(Shared)|
    && |s.Holders(Exclusive)| == (if s.exclusivelyLocked then 1 else 0)
    && s.exclusiveCounter == |s.Writers()|
    && (s.exclusivelyLocked ==>
          forall l :: l in s.locks && s.locks[l].phase.WHolding? ==> s.locks[l].thread == s.exclusiveThread)
    && (forall l :: l in s.locks && s.locks[l].phase.Announced? ==> s.locks[l].mode.Exclusive?)
  }

  ghost predicate IsWRun(states: seq<WState>, events: seq<WEvent>) {
    && |states| == |events| + 1
    && WInit(states[0])
    && forall i :: 0 <= i < |events| ==> WEnabled(states[i], events[i]) && states[i + 1] == WStep(states[i], events[i])
  }

  lemma HoldersAfterWStep(s: WState, e: WEvent, m: Mode)
    requires WEnabled(s, e)
    ensures e.WEnter? && s.CanAcquire(e.l) && s.locks[e.l].mode == m ==> WStep(s, e).Holders(m) == s.Holders(m) + {e.l}
    ensures e.WLeave? && s.locks[e.l].mode == m ==> WStep(s, e).Holders(m) == s.Holders(m) - {e.l}
    ensures e.WSpurious? || e.Announce? || s.locks[e.l].mode != m || (e.WEnter? && !s.CanAcquire(e.l)) ==>
              WStep(s, e).Holders(m) == s.Holders(m)
  {
  }

  lemma WritersAfterWStep(s: WState, e: WEvent)
    requires WEnabled(s, e)
    ensures e.Announce? ==> WStep(s, e).Writers() == s.Writers() + {e.l}
    ensures e.WLeave? && s.locks[e.l].mode.Exclusive? ==> WStep(s, e).Writers() == s.Writers() - {e.l}
    ensures !e.Announce? && !(e.WLeave? && s.locks[e.l].mode.Exclusive?) ==> WStep(s, e).Writers() == s.Writers()
  {
  }

  lemma WStepKeepsOwner(s: WState, e: WEvent)
    requires WExclusion(s) && WEnabled(s, e)
    ensures var t := WStep(s, e);
            t.exclusivelyLocked ==>
              forall l :: l in t.locks && t.locks[l].phase.WHolding? ==> t.locks[l].thread == t.exclusiveThread
  {
    var t := WStep(s, e);
    if t.exclusivelyLocked && !s.exclusivelyLocked {
      assert s.Holders(Shared) == {} == s.Holders(Exclusive);
      forall l | l in t.locks && t.locks[l].phase.WHolding?
        ensures t.locks[l].thread == t.exclusiveThread
      {
        assert l !in s.Holders(Shared) && l !in s.Holders(Exclusive);
      }
    }
  }

  lemma WStepKeepsHolders(s: WState, e: WEvent)
    requires WExclusion(s) && WEnabled(s, e)
    ensures var t := WStep(s, e);
            && t.sharedCounter == |t.Holders(Shared)|
            && |t.Holders(Exclusive)| == (if t.exclusivelyLocked then 1 else 0)
  {
    HoldersAfterWStep(s, e, Shared);
    HoldersAfterWStep(s, e, Exclusive);
    if e.WLeave? {
      assert e.l in s.Holders(s.locks[e.l].mode);
    }
    hide WState.Holders, WState.Writers;
  }

  lemma WStepKeepsWriters(s: WState, e: WEvent)
    requires WExclusion(s) && WEnabled(s, e)
    ensures WStep(s, e).exclusiveCounter == |WStep(s, e).Writers()|
  {
    WritersAfterWStep(s, e);
    if e.Announce? {
      assert e.l !in s.Writers();
    } else if e.WLeave? && s.locks[e.l].mode.Exclusive? {
      assert e.l in s.Writers();
    }
    hide WState.Holders, WState.Writers;
  }

  lemma {:induction false} WRunKeepsExclusion(states: seq<WState>, events: seq<WEvent>, i: nat)
    requires IsWRun(states, events) && i < |states|
    ensures WExclusion(states[i])
  {
    if i == 0 {
      assert states[0].Holders(Shared) == states[0].Holders(Exclusive) == states[0].Writers() == {};
    } else {
      WRunKeepsExclusion(states, events, i - 1);
      WStepKeepsHolders(states[i - 1], events[i - 1]);
      WStepKeepsWriters(states[i - 1], events[i - 1]);
      WStepKeepsOwner(states[i - 1], events[i - 1]);
    }
  }

  lemma WMutualExclusionOnRuns(states: seq<WState>, events: seq<WEvent>, i: nat, e: LockId, l: LockId)
    requires IsWRun(states, events) && i < |states|
    requires e in states[i].Holders(Exclusive)
    requires l in states[i].locks && states[i].locks[l].phase.WHolding? && l != e
    ensures states[i].locks[l].mode.Shared? && states[i].locks[l].thread == states[i].locks[e].thread
  {
    WRunKeepsExclusion(states, events, i);
    var holders := states[i].Holders(Exclusive);
    assert |holders - {e}| == 0;
    assert l !in holders - {e};
  }

  /** While a writer waits or holds, no thread but the one recorded in `exclusive_thread_id_` newly gains a shared
      lock. */
  lemma WritersHoldBackReaders(states: seq<WState>, events: seq<WEvent>, i: nat, w: LockId)
    requires IsWRun(states, events) && i < |events|
    requires w in states[i].locks && states[i].locks[w].mode.Exclusive? && !states[i].locks[w].phase.WIdle?
    ensures forall l :: l in states[i + 1].Holders(Shared) && l !in states[i].Holders(Shared) ==>
                          states[i].locks[l].thread == states[i].exclusiveThread
  {
    WRunKeepsExclusion(states, events, i);
    assert w in states[i].Writers();
    HoldersAfterWStep(states[i], events[i], Shared);
  }

  // ---------- wake-ups ----------

  // ---------- who gets in ----------

  /** In every run, by the holders alone: a shared lock is granted exactly if no writer is announced or holds, or its
      thread is the one that last held exclusively. */
  lemma ReaderEntersIff(states: seq<WState>, events: seq<WEvent>, i: nat, l: LockId)
    requires IsWRun(states, events) && i < |states|
    requires WEnabled(states[i], WEnter(l)) && states[i].locks[l].mode.Shared?
    ensures l in WStep(states[i], WEnter(l)).Holders(Shared) <==>
            states[i].Writers() == {} || states[i].locks[l].thread == states[i].exclusiveThread
    ensures l !in WStep(states[i], WEnter(l)).Holders(Shared) ==> WStep(states[i], WEnter(l)).IsAsleep(l)
  {
    WRunKeepsExclusion(states, events, i);
    assert states[i].Holders(Exclusive) <= states[i].Writers();
  }

  /** Readers do not exclude each other: without a writer every shared lock is granted. */
  lemma ReadersShare(states: seq<WState>, events: seq<WEvent>, i: nat, l: LockId)
    requires IsWRun(states, events) && i < |states| && states[i].Writers() == {}
    requires WEnabled(states[i], WEnter(l)) && states[i].locks[l].mode.Shared?
    ensures WStep(states[i], WEnter(l)).Holders(Shared) == states[i].Holders(Shared) + {l}
  {
    ReaderEntersIff(states, events, i, l);
    HoldersAfterWStep(states[i], WEnter(l), Shared);
  }

  /** The exclusive owner never blocks on a shared lock of its own, whoever else is announced. */
  lemma WOwnSharedLockNeverBlocks(states: seq<WState>, events: seq<WEvent>, i: nat, e: LockId, l: LockId)
    requires IsWRun(states, events) && i < |states| && e in states[i].Holders(Exclusive)
    requires WEnabled(states[i], WEnter(l)) && states[i].locks[l].mode.Shared?
    requires states[i].locks[l].thread == states[i].locks[e].thread
    ensures l in WStep(states[i], WEnter(l)).Holders(Shared)
  {
    WRunKeepsExclusion(states, events, i);
    ReaderEntersIff(states, events, i, l);
  }

  /** In every run, by the holders alone: an exclusive lock is granted exactly if nobody holds the mutex. */
  lemma WriterEntersIff(states: seq<WState>, events: seq<WEvent>, i: nat, l: LockId)
    requires IsWRun(states, events) && i < |states|
    requires WEnabled(states[i], WEnter(l)) && states[i].locks[l].mode.Exclusive?
    ensures var t := WStep(states[i], WEnter(l));
            && (l in t.Holders(Exclusive) <==> states[i].Holders(Shared) == {} && states[i].Holders(Exclusive) == {})
            && (l in t.Holders(Exclusive) ==> t.exclusiveThread == states[i].locks[l].thread)
            && (l !in t.Holders(Exclusive) ==> t.IsAsleep(l))
  {
    WRunKeepsExclusion(states, events, i);
  }

  /** Whoever sleeps is woken by the writer that leaves; the last reader that leaves wakes exactly one, any other
      none. */
  lemma LeavingWakes(s: WState, l: LockId, woken: Option<LockId>)
    requires WEnabled(s, WLeave(l, woken))
    ensures var t := WStep(s, WLeave(l, woken));
            && (s.locks[l].mode.Exclusive? ==> t.Sleepers() == {})
            && (s.locks[l].mode.Shared? && s.sharedCounter > 1 ==> t.Sleepers() == s.Sleepers())
            && (s.locks[l].mode.Shared? && s.sharedCounter == 1 && s.Sleepers() != {} ==>
                  woken.Some? && woken.value in s.Sleepers() && t.Sleepers() == s.Sleepers() - {woken.value})
            && t.locks.Keys == s.locks.Keys && t.locks[l].phase.WIdle?
  {
  }

  /** The thread of the last exclusive holder is remembered until another writer gets in. */
  lemma OwnerIsRemembered(s: WState, e: WEvent)
    requires WEnabled(s, e)
    ensures var t := WStep(s, e);
            t.exclusiveThread ==
              if e.WEnter? && e.l in t.Holders(Exclusive) then s.locks[e.l].thread else s.exclusiveThread
  {
  }

  ghost predicate WSharedWaitersBlocked(s: WState) {
    s.Writers() == {} ==> forall l :: s.IsAsleep(l) ==> !s.locks[l].mode.Shared?
  }

  lemma WStepKeepsWaitersBlocked(s: WState, e: WEvent)
    requires WExclusion(s) && WSharedWaitersBlocked(s) && WEnabled(s, e)
    ensures WSharedWaitersBlocked(WStep(s, e))
  {
    WritersAfterWStep(s, e);
    assert s.Holders(Exclusive) <= s.Writers();
    var t := WStep(s, e);
    if t.Writers() == {} {
      if e.WLeave? && s.locks[e.l].mode.Exclusive? {
        assert forall l :: !t.IsAsleep(l);
      } else {
        assert s.Writers() == {};
        assert e.WEnter? && s.locks[e.l].mode.Shared? ==> s.CanAcquire(e.l);
        assert forall l :: t.IsAsleep(l) && l != e.l ==> s.IsAsleep(l);
      }
    }
  }

  /** In no state of any run does a reader sleep without a writer announced or holding. */
  lemma {:induction false} ReadersSleepOnlyForWriters(states: seq<WState>, events: seq<WEvent>, i: nat)
    requires IsWRun(states, events) && i < |states|
    ensures WSharedWaitersBlocked(states[i])
  {
    if i > 0 {
      ReadersSleepOnlyForWriters(states, events, i - 1);
      WRunKeepsExclusion(states, events, i - 1);
      WStepKeepsWaitersBlocked(states[i - 1], events[i - 1]);
    }
  }

  /** A free mutex with a sleeper also has an awake waiter whose evaluation will succeed. */
  ghost predicate SomeoneReady(s: WState) {
    s.Free() && (exists l :: s.IsAsleep(l)) ==> exists l :: s.IsReady(l)
  }

  /** The wake-up that may be lost: the last reader leaves and `notify_one` picks another reader while writers wait,
      and no writer is awake. */
  ghost predicate UselessChoice(s: WState, e: WEvent)
    requires WEnabled(s, e)
  {
    && e.WLeave?
    && e.woken.Some?
    && !s.exclusivelyLocked
    && s.exclusiveCounter > 0
    && s.locks[e.woken.value].mode.Shared?
    && s.locks[e.woken.value].thread != s.exclusiveThread
    && (forall l :: l in s.locks && (s.locks[l].phase.WNotified? || s.locks[l].phase.Announced?) ==>
          s.locks[l].mode.Shared? && s.locks[l].thread != s.exclusiveThread)
    && (exists l :: l != e.woken.value && s.IsAsleep(l))
  }

  lemma AwakeWriterIsReady(s: WState, l: LockId)
    requires s.Free() && l in s.Writers() && WExclusion(s)
    requires !s.locks[l].phase.WAsleep?
    ensures s.IsReady(l)
  {
    assert l !in s.Holders(Exclusive);
  }

  lemma SpuriousKeepsReady(s: WState, l: LockId)
    requires SomeoneReady(s) && WEnabled(s, WSpurious(l)) && s.Free()
    ensures exists k :: WStep(s, WSpurious(l)).IsReady(k)
  {
    assert s.IsAsleep(l);
    var r :| s.IsReady(r);
    assert WStep(s, WSpurious(l)).IsReady(r);
  }

  /** A waiter refused by a free mutex is a reader held back by a writer, and some writer is ready. */
  lemma RefusalKeepsReady(s: WState, l: LockId)
    requires WExclusion(s) && SomeoneReady(s) && WEnabled(s, WEnter(l)) && s.Free() && !s.CanAcquire(l)
    ensures exists k :: WStep(s, WEnter(l)).IsReady(k)
  {
    var t := WStep(s, WEnter(l));
    assert s.Writers() != {};
    var w :| w in s.Writers();
    if s.locks[w].phase.WAsleep? {
      assert s.IsAsleep(w);
      var r :| s.IsReady(r);
      assert t.IsReady(r);
    } else {
      AwakeWriterIsReady(s, w);
      assert t.IsReady(w);
    }
  }

  /** A step in which `notify_one` wakes nobody never loses a wake-up. */
  lemma OtherStepsKeepReady(s: WState, e: WEvent)
    requires WExclusion(s) && SomeoneReady(s) && WEnabled(s, e)
    requires !(e.WLeave? && e.woken.Some?)
    ensures SomeoneReady(WStep(s, e))
  {
    var t := WStep(s, e);
    if t.Free() && exists k :: t.IsAsleep(k) {
      var k :| t.IsAsleep(k);
      match e {
        case Announce(l) =>
          assert t.IsReady(l);
        case WSpurious(l) =>
          SpuriousKeepsReady(s, l);
        case WEnter(l) =>
          RefusalKeepsReady(s, l);
        case WLeave(l, _) =>
          assert s.locks[l].mode.Shared? ==> k in s.Sleepers();
      }
    }
  }

  /** From any state without a lost wake-up: the next step loses one if and only if it is a useless choice of
      `notify_one`. */
  lemma WakeUpKeptIffUsefulChoice(s: WState, e: WEvent)
    requires WExclusion(s) && SomeoneReady(s) && WEnabled(s, e)
    ensures SomeoneReady(WStep(s, e)) <==> !UselessChoice(s, e)
  {
    if e.WLeave? && e.woken.Some? {
      var t, c := WStep(s, e), e.woken.value;
      assert t.Free() <==> !s.exclusivelyLocked;
      assert c in s.Sleepers() && c != e.l;
      if UselessChoice(s, e) {
        var k :| k != c && s.IsAsleep(k);
        assert t.IsAsleep(k);
        assert forall l :: !t.IsReady(l);
      } else if t.Free() && exists k :: t.IsAsleep(k) {
        var k :| t.IsAsleep(k);
        assert k != c && s.IsAsleep(k);
        if !t.IsReady(c) {
          var l :| l in s.locks && (s.locks[l].phase.WNotified? || s.locks[l].phase.Announced?) &&
                   !(s.locks[l].mode.Shared? && s.locks[l].thread != s.exclusiveThread);
          assert t.IsReady(l);
        }
      }
    } else {
      OtherStepsKeepReady(s, e);
    }
  }

  /** Over whole runs: no wake-up is ever lost if and only if no step is a useless choice. */
  lemma RunsWithUsefulChoices(states: seq<WState>, events: seq<WEvent>)
    requires IsWRun(states, events)
    ensures (forall i :: 0 <= i < |states| ==> SomeoneReady(states[i])) <==>
            (forall i :: 0 <= i < |events| ==> !UselessChoice(states[i], events[i]))
  {
    if forall i :: 0 <= i < |states| ==> SomeoneReady(states[i]) {
      forall i | 0 <= i < |events|
        ensures !UselessChoice(states[i], events[i])
      {
        WRunKeepsExclusion(states, events, i);
        WakeUpKeptIffUsefulChoice(states[i], events[i]);
        assert SomeoneReady(states[i + 1]);
      }
    } else if forall i :: 0 <= i < |events| ==> !UselessChoice(states[i], events[i]) {
      forall i | 0 <= i < |states|
        ensures SomeoneReady(states[i])
      {
        ReadyUntil(states, events, i);
      }
    }
  }

  lemma {:induction false} ReadyUntil(states: seq<WState>, events: seq<WEvent>, i: nat)
    requires IsWRun(states, events) && i < |states|
    requires forall k :: 0 <= k < i ==> !UselessChoice(states[k], events[k])
    ensures SomeoneReady(states[i])
  {
    if i > 0 {
      ReadyUntil(states, events, i - 1);
      WRunKeepsExclusion(states, events, i - 1);
      WakeUpKeptIffUsefulChoice(states[i - 1], events[i - 1]);
    }
  }

  /** Two readers and, between them, a writer. */
  function Trio(readers: int, writers: int, first: WPhase, writer: WPhase, second: WPhase): WState {
    WState(readers, writers, false, 0,
           map[0 := WLock(1, Shared, first), 1 := WLock(2, Exclusive, writer), 2 := WLock(3, Shared, second)])
  }

  /** The first reader enters, the writer announces itself and has to wait. */
  lemma FirstComers()
    ensures var (s0, s1) := (Trio(0, 0, WIdle, WIdle, WIdle), Trio(1, 0, WHolding, WIdle, WIdle));
            WEnabled(s0, WEnter(0)) && WStep(s0, WEnter(0)) == s1
    ensures var (s1, s2) := (Trio(1, 0, WHolding, WIdle, WIdle), Trio(1, 1, WHolding, Announced, WIdle));
            WEnabled(s1, Announce(1)) && WStep(s1, Announce(1)) == s2
    ensures var (s2, s3) := (Trio(1, 1, WHolding, Announced, WIdle), Trio(1, 1, WHolding, WAsleep, WIdle));
            WEnabled(s2, WEnter(1)) && WStep(s2, WEnter(1)) == s3
  {
  }

  /** The second reader has to wait, is woken when the first one leaves, and has to wait again. */
  lemma SecondComers()
    ensures var (s3, s4) := (Trio(1, 1, WHolding, WAsleep, WIdle), Trio(1, 1, WHolding, WAsleep, WAsleep));
            WEnabled(s3, WEnter(2)) && WStep(s3, WEnter(2)) == s4
    ensures var (s4, s5) := (Trio(1, 1, WHolding, WAsleep, WAsleep), Trio(0, 1, WIdle, WAsleep, WNotified));
            WEnabled(s4, WLeave(0, Some(2))) && WStep(s4, WLeave(0, Some(2))) == s5
    ensures var (s5, s6) := (Trio(0, 1, WIdle, WAsleep, WNotified), Trio(0, 1, WIdle, WAsleep, WAsleep));
            WEnabled(s5, WEnter(2)) && WStep(s5, WEnter(2)) == s6
  {
    assert 2 in Trio(1, 1, WHolding, WAsleep, WAsleep).Sleepers();
  }

  /** A reader holds, a writer announces itself and sleeps, a second reader sleeps behind the writer; the first reader
      leaves and `notify_one` wakes the second reader, which goes back to sleep.  The mutex is free and everybody
      sleeps. */
  lemma WakeUpIsLost() returns (states: seq<WState>, events: seq<WEvent>)
    ensures IsWRun(states, events)
    ensures var s := states[|events|];
            s.Free() && s.IsAsleep(1) && s.locks[1].mode.Exclusive? && s.IsAsleep(2) && forall l :: !s.IsReady(l)
  {
    FirstComers();
    SecondComers();
    hide WStep, WEnabled;
    states := [Trio(0, 0, WIdle, WIdle, WIdle), Trio(1, 0, WHolding, WIdle, WIdle),
               Trio(1, 1, WHolding, Announced, WIdle),
               Trio(1, 1, WHolding, WAsleep, WIdle), Trio(1, 1, WHolding, WAsleep, WAsleep),
               Trio(0, 1, WIdle, WAsleep, WNotified), Trio(0, 1, WIdle, WAsleep, WAsleep)];
    events := [WEnter(0), Announce(1), WEnter(1), WEnter(2), WLeave(0, Some(2)), WEnter(2)];
  }
}
