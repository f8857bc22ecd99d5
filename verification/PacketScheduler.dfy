/**
 * Bounded priority queues (include/uxr/agent/scheduler/PacketScheduler.hpp) and the consumer that may put a packet back
 * (src/cpp/transport/Server.cpp, `sender_loop`).
 */
module PacketSchedulers {

  import opened Options
  import opened Words

  datatype Queues<T> = Queues(deques: map<byte, seq<T>>, sizes: map<byte, nat>, running: bool)
  {
    function Queue(p: byte): seq<T> {
      if p in deques then deques[p] else []
    }

    function Size(p: byte): nat {
      if p in sizes then sizes[p] else 0
    }

    ghost predicate Empty() {
      forall p: byte :: Queue(p) == []
    }

    /** `p` is the highest priority with something queued. */
    ghost predicate Highest(p: byte) {
      Queue(p) != [] && forall other: byte :: other > p ==> Queue(other) == []
    }

    predicate Full(p: byte) {
      Size(p) <= |Queue(p)|
    }
  }

  /** Dropping the front of an empty deque is undefined, so a priority needs a positive size before its first push. */
  predicate CanPush<T>(q: Queues<T>, p: byte) {
    q.Full(p) ==> q.Queue(p) != []
  }

  /** What a push keeps of the queue it goes to. */
  function Kept<T>(q: Queues<T>, p: byte): seq<T>
    requires CanPush(q, p)
  {
    if q.Full(p) then q.Queue(p)[1..] else q.Queue(p)
  }

  function Pushed<T>(q: Queues<T>, element: T, p: byte): Queues<T>
    requires CanPush(q, p)
  {
    Queues(q.deques[p := Kept(q, p) + [element]], q.sizes[p := q.Size(p)], q.running)
  }

  function PutBack<T>(q: Queues<T>, element: T, p: byte): Queues<T> {
    q.(deques := q.deques[p := [element] + q.Queue(p)])
  }

  function PoppedAt<T>(q: Queues<T>, p: byte): Queues<T>
    requires q.Queue(p) != []
  {
    q.(deques := q.deques[p := q.Queue(p)[1..]])
  }

  class PacketScheduler<T> {
    var deques: map<byte, seq<T>>
    var sizes: map<byte, nat>
    var running: bool
    const maxSize: nat

    ghost function View(): Queues<T>
      reads this
    {
      Queues(deques, sizes, running)
    }

    constructor (maxSize: nat)
      ensures View() == Queues(map[], map[], false) && this.maxSize == maxSize
    {
      deques, sizes, running, this.maxSize := map[], map[], false, maxSize;
    }

    method SetPrioritySize(priority: byte, size: nat)
      modifies this
      ensures View() == old(View()).(sizes := old(sizes)[priority := size])
    {
      sizes := sizes[priority := size];
    }

    method Init()
      modifies this
      ensures View() == old(View()).(sizes := old(sizes)[0 := maxSize], running := true)
    {
      sizes := sizes[0 := maxSize];
      running := true;
    }

    method Deinit()
      modifies this
      ensures View() == old(View()).(running := false)
    {
      running := false;
    }

    /** The subscript operator of `std::map`: a missing queue is created empty, a missing size is created zero. */
    method Subscript(priority: byte)
      modifies this
      ensures deques == old(deques)[priority := old(View()).Queue(priority)]
      ensures sizes == old(sizes)[priority := old(View()).Size(priority)]
      ensures running == old(running)
    {
      if priority !in deques {
        deques := deques[priority := []];
      }
      if priority !in sizes {
        sizes := sizes[priority := 0];
      }
    }

    method Push(element: T, priority: byte)
      requires CanPush(View(), priority)
      modifies this
      ensures View() == Pushed(old(View()), element, priority)
    {
      Subscript(priority);
      if sizes[priority] <= |deques[priority]| {
        deques := deques[priority := deques[priority][1..]];
      }
      deques := deques[priority := deques[priority] + [element]];
    }

    method PushFront(element: T, priority: byte)
      modifies this
      ensures View() == PutBack(old(View()), element, priority)
    {
      deques := deques[priority := [element] + (if priority in deques then deques[priority] else [])];
    }

    method IsEmpty() returns (empty: bool)
      ensures empty == View().Empty()
    {
      var left := deques.Keys;
      while left != {}
        invariant left <= deques.Keys
        invariant forall p: byte :: p !in left ==> View().Queue(p) == []
        decreases left
      {
        var p: byte :| p in left;
        if deques[p] != [] {
          assert View().Queue(p) != [];
          return false;
        }
        left := left - {p};
      }
      return true;
    }

    /** The search of `pop`, from the highest priority down. */
    method FindHighest() returns (priority: byte)
      requires !View().Empty()
      ensures View().Highest(priority)
    {
      var p := 255;
      while p > 0 && !(p in deques && |deques[p]| > 0)
        invariant 0 <= p <= 255
        invariant forall other: byte :: other > p ==> View().Queue(other) == []
      {
        p := p - 1;
      }
      priority := p;
    }

    /** `pop` once its wait is over, that is, once the scheduler is stopped or holds something. */
    method Pop() returns (rv: bool, element: Option<T>, ghost priority: byte)
      requires !(View().Empty() && running)
      modifies this
      ensures rv == old(running) && rv == element.Some?
      ensures rv ==> old(View()).Highest(priority) && element.value == old(View()).Queue(priority)[0]
      ensures rv ==> View() == PoppedAt(old(View()), priority)
      ensures !rv ==> View() == old(View())
    {
      rv, element, priority := false, None, 0;
      if running {
        var p := FindHighest();
        element := Some(deques[p][0]);
        deques := deques[p := deques[p][1..]];
        rv, priority := true, p;
      }
    }
  }

  /** A push to this priority is possible, whatever the queue holds. */
  ghost predicate AlwaysPushable<T(!new)>(q: Queues<T>, p: byte) {
    forall queue :: CanPush(WithQueue(q, p, queue), p)
  }

  function WithQueue<T>(q: Queues<T>, p: byte, queue: seq<T>): Queues<T> {
    q.(deques := q.deques[p := queue])
  }

  lemma AlwaysPushableIff<T(!new)>(q: Queues<T>, p: byte)
    ensures AlwaysPushable(q, p) <==> q.Size(p) > 0
  {
    if AlwaysPushable(q, p) {
      assert CanPush(WithQueue(q, p, []), p);
    }
  }

  /** The schedulers as `start` sets them up: the input has priority 0 and, for heartbeats, priority 1; the output
      priority 0 only. */
  method StartSchedulers<T(!new)>(maxSize: nat) returns (input: PacketScheduler<T>, output: PacketScheduler<T>)
    ensures fresh(input) && fresh(output) && input.running && output.running
    ensures AlwaysPushable(input.View(), 0) <==> maxSize > 0
    ensures AlwaysPushable(input.View(), 1) && input.View().Size(1) == 1
    ensures AlwaysPushable(output.View(), 0) <==> maxSize > 0
    ensures forall p: byte :: p > 1 ==> !AlwaysPushable(input.View(), p)
  {
    input := new PacketScheduler<T>(maxSize);
    input.Init();
    input.SetPrioritySize(1, 1);
    output := new PacketScheduler<T>(maxSize);
    output.Init();
    forall p: byte
      ensures AlwaysPushable(input.View(), p) <==> input.View().Size(p) > 0
    {
      AlwaysPushableIff(input.View(), p);
    }
    AlwaysPushableIff(output.View(), 0);
  }

  /** The output scheduler only ever uses priority 0. */
  ghost predicate OutputOnly<T>(q: Queues<T>) {
    forall p: byte :: p != 0 ==> q.Queue(p) == []
  }

  /** Putting back the element just popped restores the scheduler. */
  lemma PutBackUndoesPop<T>(q: Queues<T>, p: byte)
    requires p in q.deques && q.Queue(p) != []
    ensures PutBack(PoppedAt(q, p), q.Queue(p)[0], p) == q
  {
    var queue := q.Queue(p);
    assert [queue[0]] + queue[1..] == queue;
    assert q.deques[p := queue[1..]][p := queue] == q.deques;
  }

  /** One turn of `sender_loop`: a packet leaves the scheduler unless the transport failed while the server was
      running. */
  method SenderTurn<T>(scheduler: PacketScheduler<T>, sent: bool, serverError: bool, running: bool)
    returns (packet: Option<T>)
    requires OutputOnly(scheduler.View()) && !(scheduler.View().Empty() && scheduler.running)
    modifies scheduler
    ensures OutputOnly(scheduler.View())
    ensures packet.Some? == (old(scheduler.running) && (sent || !serverError || !running))
    ensures packet.None? ==> scheduler.View() == old(scheduler.View())
    ensures packet.Some? ==> old(scheduler.View()).Queue(0) == [packet.value] + scheduler.View().Queue(0)
  {
    ghost var was := scheduler.View();
    var popped, element, priority := scheduler.Pop();
    assert forall p: byte :: p != 0 ==> scheduler.View().Queue(p) == was.Queue(p);
    packet := element;
    if popped && !sent && serverError && running {
      PutBackUndoesPop(was, priority);
      scheduler.PushFront(element.value, 0);
      packet := None;
    }
  }

  // ---------- runs: any number of producers, one consumer ----------

  /** An element is named by its place among the pushes to its priority; the consumer holds at most one. */
  datatype Item = Item(priority: byte, index: nat)

  datatype Run = Run(q: Queues<nat>, pushes: map<byte, nat>, hand: Option<Item>, done: seq<Item>, dropped: seq<Item>)
  {
    function Pushes(p: byte): nat {
      if p in pushes then pushes[p] else 0
    }
  }

  datatype Event = Push(p: byte) | Pop(p: byte) | Return | Finish

  ghost predicate Enabled(r: Run, e: Event) {
    match e
    case Push(p) => r.q.Size(p) > 0
    case Pop(p) => r.hand.None? && r.q.Highest(p)
    case Return => r.hand.Some?
    case Finish => r.hand.Some?
  }

  ghost function Step(r: Run, e: Event): Run
    requires Enabled(r, e)
  {
    match e
    case Push(p) =>
      r.(q := Pushed(r.q, r.Pushes(p), p),
         pushes := r.pushes[p := r.Pushes(p) + 1],
         dropped := if r.q.Full(p) then r.dropped + [Item(p, r.q.Queue(p)[0])] else r.dropped)
    case Pop(p) =>
      r.(q := PoppedAt(r.q, p), hand := Some(Item(p, r.q.Queue(p)[0])))
    case Return =>
      r.(q := PutBack(r.q, r.hand.value.index, r.hand.value.priority), hand := None)
    case Finish =>
      r.(hand := None, done := r.done + [r.hand.value])
  }

  /** The places of the items of one priority, in order. */
  ghost function Of(items: seq<Item>, p: byte): seq<nat> {
    if items == [] then []
    else
      var front, last := items[..|items| - 1], items[|items| - 1];
      if last.priority == p then Of(front, p) + [last.index] else Of(front, p)
  }

  lemma OfAppend(items: seq<Item>, item: Item, p: byte)
    ensures Of(items + [item], p) == if item.priority == p then Of(items, p) + [item.index] else Of(items, p)
  {
    assert (items + [item])[..|items|] == items;
  }

  ghost function Held(r: Run, p: byte): seq<nat> {
    if r.hand.Some? && r.hand.value.priority == p then [r.hand.value.index] else []
  }

  /** What was pushed to a priority and not dropped: finished, in the consumer's hand, then queued. */
  ghost function Line(r: Run, p: byte): seq<nat> {
    Of(r.done, p) + Held(r, p) + r.q.Queue(p)
  }

  ghost predicate Increasing(s: seq<nat>) {
    forall i, j :: 0 <= i < j < |s| ==> s[i] < s[j]
  }

  /** Every push is in exactly one of two places, and the surviving ones keep the order of the pushes. */
  ghost predicate Accounted(line: seq<nat>, dropped: seq<nat>, pushes: nat) {
    && Increasing(line)
    && |line| + |dropped| == pushes
    && (forall i :: i in line ==> i < pushes)
    && (forall i :: i in dropped ==> i < pushes && i !in line)
    && (forall i :: 0 <= i < pushes ==> i in line || i in dropped)
  }

  ghost predicate LineInv(r: Run, p: byte) {
    && Accounted(Line(r, p), Of(r.dropped, p), r.Pushes(p))
    && |Held(r, p)| + |r.q.Queue(p)| <= r.q.Size(p) + 1
  }

  lemma AppendAccounted(line: seq<nat>, dropped: seq<nat>, pushes: nat)
    requires Accounted(line, dropped, pushes)
    ensures Accounted(line + [pushes], dropped, pushes + 1)
  {
    assert forall k :: 0 <= k < |line| ==> line[k] in line;
    forall i | 0 <= i < pushes + 1
      ensures i in line + [pushes] || i in dropped
    {
      assert i == pushes ==> (line + [pushes])[|line|] == i;
    }
  }

  lemma DropAccounted(before: seq<nat>, x: nat, after: seq<nat>, dropped: seq<nat>, pushes: nat)
    requires Accounted(before + [x] + after, dropped, pushes)
    ensures Accounted(before + after, dropped + [x], pushes)
  {
    var was, now := before + [x] + after, before + after;
    assert forall i :: 0 <= i < |now| ==> now[i] == was[if i < |before| then i else i + 1];
    assert was[|before|] == x && x in was;
    forall i | i in was && i != x
      ensures i in now
    {
      var k :| 0 <= k < |was| && was[k] == i;
      assert i == now[if k < |before| then k else k - 1];
    }
    forall i | i in now
      ensures i in was && i != x
    {
      var k :| 0 <= k < |now| && now[k] == i;
    }
    assert (dropped + [x])[|dropped|] == x;
    assert forall i :: i in dropped ==> i in dropped + [x];
  }

  lemma ReplaceAccounted(settled: seq<nat>, queue: seq<nat>, dropped: seq<nat>, pushes: nat)
    requires Accounted(settled + queue, dropped, pushes) && queue != []
    ensures Accounted(settled + (queue[1..] + [pushes]), dropped + [queue[0]], pushes + 1)
  {
    assert settled + queue == settled + [queue[0]] + queue[1..];
    DropAccounted(settled, queue[0], queue[1..], dropped, pushes);
    AppendAccounted(settled + queue[1..], dropped + [queue[0]], pushes);
    assert settled + queue[1..] + [pushes] == settled + (queue[1..] + [pushes]);
  }

  lemma DropKeepsLine(r: Run, p: byte)
    requires Enabled(r, Push(p)) && LineInv(r, p) && r.q.Full(p)
    ensures LineInv(Step(r, Push(p)), p)
  {
    OfAppend(r.dropped, Item(p, r.q.Queue(p)[0]), p);
    ReplaceAccounted(Of(r.done, p) + Held(r, p), r.q.Queue(p), Of(r.dropped, p), r.Pushes(p));
  }

  lemma PushKeepsLine(r: Run, to: byte, p: byte)
    requires Enabled(r, Push(to)) && LineInv(r, p)
    ensures LineInv(Step(r, Push(to)), p)
  {
    hide LineInv, Step;
    if to != p {
      PushElsewhere(r, to, p);
    } else if r.q.Full(p) {
      DropKeepsLine(r, p);
    } else {
      PushWithRoom(r, p);
    }
  }

  lemma PushElsewhere(r: Run, to: byte, p: byte)
    requires Enabled(r, Push(to)) && LineInv(r, p) && to != p
    ensures LineInv(Step(r, Push(to)), p)
  {
    hide Accounted, Of;
    var s := Step(r, Push(to));
    assert Held(s, p) == Held(r, p) && s.q.Queue(p) == r.q.Queue(p) && s.Pushes(p) == r.Pushes(p);
    if r.q.Full(to) {
      OfAppend(r.dropped, Item(to, r.q.Queue(to)[0]), p);
    }
  }

  lemma PushWithRoom(r: Run, p: byte)
    requires Enabled(r, Push(p)) && LineInv(r, p) && !r.q.Full(p)
    ensures LineInv(Step(r, Push(p)), p)
  {
    hide Accounted, Of;
    var s := Step(r, Push(p));
    assert Held(s, p) == Held(r, p) && s.q.Queue(p) == r.q.Queue(p) + [r.Pushes(p)];
    AppendAccounted(Line(r, p), Of(r.dropped, p), r.Pushes(p));
    assert Line(s, p) == Line(r, p) + [r.Pushes(p)];
  }

  /** Nothing but the queues, the hand and what is done may change. */
  ghost predicate LineKept(r: Run, s: Run, p: byte) {
    && Line(s, p) == Line(r, p)
    && s.dropped == r.dropped && s.pushes == r.pushes && s.q.sizes == r.q.sizes
    && |Held(s, p)| + |s.q.Queue(p)| <= |Held(r, p)| + |r.q.Queue(p)|
  }

  /** The invariant is about the line, what was dropped and pushed, and how much is held or queued. */
  lemma LineDecides(r: Run, s: Run, p: byte)
    requires LineKept(r, s, p)
    ensures LineInv(r, p) ==> LineInv(s, p)
  {
    hide Accounted, Of, Line;
  }

  lemma SameWaiting(done: seq<nat>, held: seq<nat>, queue: seq<nat>, held': seq<nat>, queue': seq<nat>)
    requires held + queue == held' + queue'
    ensures done + held + queue == done + held' + queue'
  {
    assert done + held + queue == done + (held + queue);
    assert done + held' + queue' == done + (held' + queue');
  }

  lemma PopKeepsLine(r: Run, from: byte, p: byte)
    requires Enabled(r, Pop(from))
    ensures LineKept(r, Step(r, Pop(from)), p)
  {
    hide Of;
    var s := Step(r, Pop(from));
    if from == p {
      assert r.q.Queue(p) == [r.q.Queue(p)[0]] + r.q.Queue(p)[1..];
    }
    SameWaiting(Of(r.done, p), Held(r, p), r.q.Queue(p), Held(s, p), s.q.Queue(p));
  }

  lemma ReturnKeepsLine(r: Run, p: byte)
    requires Enabled(r, Return)
    ensures LineKept(r, Step(r, Return), p)
  {
    hide Of;
    var s := Step(r, Return);
    SameWaiting(Of(r.done, p), Held(r, p), r.q.Queue(p), Held(s, p), s.q.Queue(p));
  }

  lemma FinishKeepsLine(r: Run, p: byte)
    requires Enabled(r, Finish)
    ensures LineKept(r, Step(r, Finish), p)
  {
    hide Of;
    OfAppend(r.done, r.hand.value, p);
  }

  /** Taking, putting back and finishing move an element along its line and change nothing else. */
  lemma ConsumerKeepsLine(r: Run, e: Event, p: byte)
    requires Enabled(r, e) && !e.Push?
    ensures Line(Step(r, e), p) == Line(r, p)
    ensures LineInv(r, p) ==> LineInv(Step(r, e), p)
  {
    hide Line, LineInv, Step, Enabled;
    match e {
      case Pop(from) => PopKeepsLine(r, from, p);
      case Return => ReturnKeepsLine(r, p);
      case Finish => FinishKeepsLine(r, p);
    }
    LineDecides(r, Step(r, e), p);
  }

  ghost predicate Runs(rs: seq<Run>, es: seq<Event>) {
    && |rs| == |es| + 1
    && (forall i :: 0 <= i < |es| ==> Enabled(rs[i], es[i]) && rs[i + 1] == Step(rs[i], es[i]))
  }

  ghost predicate Initial(r: Run) {
    r.q.Empty() && r.pushes == map[] && r.hand.None? && r.done == [] && r.dropped == []
  }

  lemma {:induction false} RunKeepsLines(rs: seq<Run>, es: seq<Event>, p: byte)
    requires Runs(rs, es) && Initial(rs[0])
    ensures LineInv(rs[|es|], p)
  {
    if es != [] {
      var n := |es| - 1;
      RunKeepsLines(rs[..|es|], es[..n], p);
      if es[n].Push? {
        PushKeepsLine(rs[n], es[n].p, p);
      } else {
        ConsumerKeepsLine(rs[n], es[n], p);
      }
    }
  }

  lemma {:induction false} SizesStay(rs: seq<Run>, es: seq<Event>, p: byte)
    requires Runs(rs, es)
    ensures rs[|es|].q.Size(p) == rs[0].q.Size(p)
  {
    if es != [] {
      SizesStay(rs[..|es|], es[..|es| - 1], p);
    }
  }

  /** In every run: what leaves a priority leaves in push order, nothing is duplicated, and a queue of size S never
      exceeds S + 1. */
  lemma QueuesStayBoundedAndOrdered(rs: seq<Run>, es: seq<Event>, p: byte)
    requires Runs(rs, es) && Initial(rs[0])
    ensures var r := rs[|es|];
            && |r.q.Queue(p)| <= rs[0].q.Size(p) + 1
            && Increasing(Of(r.done, p))
            && Accounted(Line(r, p), Of(r.dropped, p), r.Pushes(p))
            && r.Pushes(p) == |Of(r.done, p)| + |Of(r.dropped, p)| + |Held(r, p)| + |r.q.Queue(p)|
  {
    RunKeepsLines(rs, es, p);
    SizesStay(rs, es, p);
    var r := rs[|es|];
    assert forall i :: 0 <= i < |Of(r.done, p)| ==> Of(r.done, p)[i] == Line(r, p)[i];
  }

  /** An increasing sequence that contains every place below its length is the identity. */
  lemma {:induction false} IncreasingBelow(line: seq<nat>, n: nat)
    requires Increasing(line) && |line| == n && forall i :: i in line ==> i < n
    ensures forall i :: 0 <= i < n ==> line[i] == i
  {
    if n > 0 {
      var front := line[..n - 1];
      assert line[n - 1] < n by {
        assert line[n - 1] in line;
      }
      forall i | i in front
        ensures i < n - 1
      {
        var k :| 0 <= k < n - 1 && front[k] == i;
        assert line[k] < line[n - 1];
      }
      IncreasingBelow(front, n - 1);
      assert n == 1 || front[n - 2] == n - 2;
      assert n > 1 ==> line[n - 2] < line[n - 1];
    }
  }

  /** A priority that never overflowed is a first-in first-out queue, whatever the consumer put back. */
  lemma WithoutDropsFifo(rs: seq<Run>, es: seq<Event>, p: byte)
    requires Runs(rs, es) && Initial(rs[0]) && Of(rs[|es|].dropped, p) == []
    ensures var done := Of(rs[|es|].done, p);
            forall i :: 0 <= i < |done| ==> done[i] == i
  {
    RunKeepsLines(rs, es, p);
    var r := rs[|es|];
    IncreasingBelow(Line(r, p), r.Pushes(p));
    assert forall i :: 0 <= i < |Of(r.done, p)| ==> Of(r.done, p)[i] == Line(r, p)[i];
  }

  lemma FrontIsOldest(r: Run, p: byte)
    requires LineInv(r, p) && r.q.Queue(p) != []
    ensures forall i :: i in r.q.Queue(p)[1..] + [r.Pushes(p)] ==> r.q.Queue(p)[0] < i
  {
    var queue, settled := r.q.Queue(p), |Of(r.done, p) + Held(r, p)|;
    assert forall k :: 0 <= k < |queue| ==> queue[k] == Line(r, p)[settled + k];
    assert queue[0] in Line(r, p);
  }

  /** A push drops something exactly when the queue is full, and then it drops the oldest element of that queue. */
  lemma OnlyTheOldestIsDropped(rs: seq<Run>, es: seq<Event>, p: byte)
    requires Runs(rs, es) && Initial(rs[0]) && Enabled(rs[|es|], Push(p))
    ensures var (r, s) := (rs[|es|], Step(rs[|es|], Push(p)));
            if |r.q.Queue(p)| < r.q.Size(p) then s.dropped == r.dropped
            else && |s.dropped| == |r.dropped| + 1
                 && s.dropped[..|r.dropped|] == r.dropped
                 && s.dropped[|r.dropped|].priority == p
                 && (forall i :: i in s.q.Queue(p) ==> s.dropped[|r.dropped|].index < i)
  {
    RunKeepsLines(rs, es, p);
    if rs[|es|].q.Full(p) {
      FrontIsOldest(rs[|es|], p);
    }
  }
}
