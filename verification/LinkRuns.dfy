/**
 * Runs of a reliable link: pushing the messages of a submessage at once, runs that stay calm, and runs that go wrong
 * (OutputStream.hpp:280-425 and InputStream.hpp:246-358 of include/uxr/agent/client/session/stream).
 */
module LinkRuns {

  import opened SeqNums
  import opened ReliableStreams
  import opened ReliableLinks

  // ---------- the messages of one submessage ----------

  function PushedAll<T>(o: Output<T>, messages: seq<T>): Output<T>
    decreases |messages|
  {
    if messages == [] then o else PushedAll(Pushed(o, messages[0]), messages[1..])
  }

  lemma {:induction false} PushedAllOneMore<T>(o: Output<T>, messages: seq<T>, message: T)
    ensures PushedAll(o, messages + [message]) == Pushed(PushedAll(o, messages), message)
    decreases |messages|
  {
    hide Pushed;
    if messages == [] {
      assert (messages + [message])[1..] == [];
    } else {
      assert (messages + [message])[1..] == messages[1..] + [message];
      PushedAllOneMore(Pushed(o, messages[0]), messages[1..], message);
    }
  }

  lemma {:induction false} PushedAllNumber<T>(o: Output<T>, messages: seq<T>, n: int)
    requires o.lastUnacked == Image(n - 1)
    ensures PushedAll(o, messages).lastUnacked == Image(n + |messages| - 1)
    decreases |messages|
  {
    if messages != [] {
      ArithmeticCommutes(n - 1, 1);
      PushedAllNumber(Pushed(o, messages[0]), messages[1..], n + 1);
    }
  }

  /** One `push_submessage` at an open window: all its messages, one after the other. */
  ghost function PushAll<T>(l: Link<T>, messages: seq<T>): Link<T>
    decreases |messages|
  {
    if messages == [] then l else PushAll(Step(l, Push(messages[0])), messages[1..])
  }

  lemma {:induction false} PushAllIs<T>(l: Link<T>, messages: seq<T>)
    ensures PushAll(l, messages) == l.(sender := PushedAll(l.sender, messages), log := l.log + messages)
    decreases |messages|
  {
    hide Pushed;
    if messages == [] {
      assert l.log + messages == l.log;
    } else {
      PushAllIs(Step(l, Push(messages[0])), messages[1..]);
      assert l.log + [messages[0]] + messages[1..] == l.log + messages;
    }
  }

  /** The protocol is kept if and only if no number is reused while it is unacknowledged. */
  lemma {:induction false} PushAllKeepsIff<T>(l: Link<T>, messages: seq<T>)
    requires Inv(l)
    ensures Inv(PushAll(l, messages)) <==> |l.log| + |messages| <= l.f + MAX
    decreases |messages|
  {
    if messages == [] {
      AtMostAllNumbers(l);
    } else {
      var next := Step(l, Push(messages[0]));
      PushKeepsIff(l, messages[0]);
      PushAllIs(l, messages);
      hide Inv, Step;
      if Inv(next) {
        PushAllKeepsIff(next, messages[1..]);
      } else {
        TooManyNumbers(PushAll(l, messages));
      }
    }
  }

  lemma AtMostAllNumbers<T>(l: Link<T>)
    requires Inv(l)
    ensures |l.log| <= l.f + MAX
  {
  }

  lemma TooManyNumbers<T>(l: Link<T>)
    ensures |l.log| > l.f + MAX ==> !Inv(l)
  {
  }

  // ---------- calm runs ----------

  /** The most messages that one submessage may take so that its stream stays calm. */
  const MODEST := ADD_RANGE + 1 - DEPTH

  /** At an open window, 32752 messages at a time keep a calm link calm. */
  lemma ModestPushKeepsCalm<T>(l: Link<T>, messages: seq<T>)
    requires Inv(l) && Calm(l) && WindowOpen(l.sender) && |messages| <= MODEST
    ensures Inv(PushAll(l, messages)) && Calm(PushAll(l, messages))
  {
    WindowOpenExactly(l.sender, l.log, l.f, l.s);
    PushAllKeepsIff(l, messages);
    PushAllIs(l, messages);
  }

  /** One message more, and a link with 15 unacknowledged messages is calm no longer. */
  lemma ModestIsSharp<T>(l: Link<T>, messages: seq<T>)
    requires Inv(l) && |l.log| == l.f + DEPTH - 1 && |messages| == MODEST + 1
    ensures WindowOpen(l.sender) && Calm(l) && !Calm(PushAll(l, messages))
  {
    WindowOpenExactly(l.sender, l.log, l.f, l.s);
    PushAllIs(l, messages);
  }

  /** Acknowledgements only move forward, so that nothing else can disturb the calm. */
  lemma CalmStep<T>(l: Link<T>, e: Event<T>)
    requires Inv(l) && Calm(l) && Enabled(l, e) && !e.Push? && (e.Arrive? ==> Recent(l, e.packet))
    ensures Proper(l, e) && Inv(Step(l, e)) && Calm(Step(l, e)) && Step(l, e).log == l.log
  {
    hide Recent;
    if e.Arrive? {
      RecentIsReadRight(l, e.packet);
    }
    StepKeepsInvIff(l, e);
  }

  // ---------- runs that go wrong ----------

  ghost function Fresh<T>(): (l: Link<T>)
    ensures Initial(l) && Inv(l)
  {
    var l := Link(Output(map[], 0xFFFF, 0xFFFF, 0), Input(map[], 0xFFFF, 0xFFFF), [], [], 0, 0, 0, 0, []);
    InitialKeeps(l);
    l
  }

  lemma RunExtends<T>(ls: seq<Link<T>>, es: seq<Event<T>>, e: Event<T>)
    requires Runs(ls, es) && Enabled(ls[|es|], e)
    ensures Runs(ls + [Step(ls[|es|], e)], es + [e])
  {
    hide Step, Enabled;
    var (more, events) := (ls + [Step(ls[|es|], e)], es + [e]);
    forall i | 0 <= i < |events|
      ensures Enabled(more[i], events[i]) && more[i + 1] == Step(more[i], events[i])
    {
      assert more[i] == ls[i];
      if i < |es| {
        assert events[i] == es[i] && more[i + 1] == ls[i + 1];
      }
    }
  }

  /** Everything pushed was sent, delivered and acknowledged. */
  ghost predicate Idle<T>(l: Link<T>) {
    Inv(l) && l.f == l.s == l.h == l.a == |l.log|
  }

  /** The receiver of an idle link holds nothing. */
  lemma IdleReceiver<T>(l: Link<T>)
    requires Idle(l)
    ensures l.receiver == Input(map[], Image(|l.log| - 1), Image(|l.log| - 1)) && l.delivered == l.log
  {
    assert l.receiver.messages == map[];
    assert l.log[..|l.log|] == l.log;
  }

  lemma SendsNext<T>(l: Link<T>)
    requires Inv(l) && 1 <= |l.log| - l.s <= ADD_RANGE
    ensures var m := Step(l, SendNext);
            Inv(m) && m == l.(sender := m.sender, wire := l.wire + [Data(l.s, l.log[l.s])], s := l.s + 1)
  {
    SendKeeps(l);
    NextIsThere(l.sender, l.log, l.f, l.s);
  }

  lemma FreshDataKept<T>(l: Link<T>)
    requires Inv(l) && Calm(l) && l.h == l.a < |l.log|
    ensures var m := Received(l, Data(l.h, l.log[l.h]));
            Inv(m) && Has(m, l.h) && m == l.(receiver := m.receiver, a := l.h + 1)
  {
    RecentDataRead(l, l.h);
    ArriveKeepsIff(l, Data(l.h, l.log[l.h]));
    WindowExactly(l.receiver, l.log, l.h, l.a, l.h);
  }

  lemma PopsKept<T>(l: Link<T>)
    requires Inv(l) && Has(l, l.h)
    ensures var m := Step(l, Pop);
            Inv(m) && m == l.(receiver := m.receiver, h := l.h + 1, delivered := l.delivered + [l.log[l.h]])
  {
    PopKeeps(l);
    PopKeepsReceiver(l.receiver, l.log, l.h, l.a);
  }

  lemma PushOnIdle<T>(l: Link<T>, message: T)
    requires Idle(l)
    ensures var m := Step(l, Push(message));
            Inv(m) && Calm(m) && m == l.(sender := m.sender, log := l.log + [message])
  {
    PushKeepsIff(l, message);
  }

  lemma ArrivalIs<T>(l: Link<T>, p: Packet<T>)
    requires p in l.wire
    ensures Step(l, Arrive(p)) == Received(l, p) && Received(l, p).wire == l.wire
  {
  }

  /** Push a message, send it, and let it arrive. */
  lemma ExchangeHalf<T>(l: Link<T>, message: T)
    requires Idle(l)
    ensures var pushed := Step(l, Push(message));
            var sent := Step(pushed, SendNext);
            && Data(|l.log|, message) in sent.wire
            && (var came := Step(sent, Arrive(Data(|l.log|, message)));
                && Inv(came) && Has(came, |l.log|)
                && came.wire == l.wire + [Data(|l.log|, message)] && came.log == l.log + [message]
                && came.f == came.h == |l.log| && came.s == came.a == |l.log| + 1)
  {
    PushOnIdle(l, message);
    IdleNumbers(l);
    hide Inv, Step, Received, Idle, Has;
    var pushed := Step(l, Push(message));
    SendsNext(pushed);
    var sent := Step(pushed, SendNext);
    assert sent.wire[|l.wire|] == Data(|l.log|, message);
    FreshDataKept(sent);
    ArrivalIs(sent, Data(|l.log|, message));
  }

  /** Deliver a message and acknowledge it. */
  lemma ExchangeRest<T>(l: Link<T>)
    requires Inv(l) && Has(l, l.h) && l.f == l.h && l.s == l.a == |l.log| == l.h + 1
    ensures var answered := Step(Step(l, Pop), Answer);
            && Acknack(l.h + 1) in answered.wire
            && (var m := Step(answered, Arrive(Acknack(l.h + 1)));
                Idle(m) && m.log == l.log && m.wire == l.wire + [Acknack(l.h + 1)])
  {
    PopsKept(l);
    hide Inv, Step, Received;
    var popped := Step(l, Pop);
    AnswerSends(popped);
    var answered := Step(popped, Answer);
    assert answered.wire[|l.wire|] == Acknack(l.h + 1);
    AckArrives(answered);
    ArrivalIs(answered, Acknack(l.h + 1));
  }

  lemma RunExtendsByThree<T>(ls: seq<Link<T>>, es: seq<Event<T>>, e1: Event<T>, e2: Event<T>, e3: Event<T>)
    returns (more: seq<Link<T>>, events: seq<Event<T>>)
    requires Runs(ls, es) && Enabled(ls[|es|], e1) && Enabled(Step(ls[|es|], e1), e2)
    requires Enabled(Step(Step(ls[|es|], e1), e2), e3)
    ensures Runs(more, events) && more[0] == ls[0] && more[|events|] == Step(Step(Step(ls[|es|], e1), e2), e3)
  {
    var l := ls[|es|];
    RunLength(ls, es);
    RunExtends(ls, es, e1);
    hide Step, Enabled, Runs;
    var (k1, s1) := (ls + [Step(l, e1)], es + [e1]);
    RunExtends(k1, s1, e2);
    var (k2, s2) := (k1 + [Step(Step(l, e1), e2)], s1 + [e2]);
    RunExtends(k2, s2, e3);
    more, events := k2 + [Step(Step(Step(l, e1), e2), e3)], s2 + [e3];
  }

  /** An idle link, one message later. */
  lemma Exchanges<T>(ls: seq<Link<T>>, es: seq<Event<T>>, message: T)
    returns (more: seq<Link<T>>, events: seq<Event<T>>)
    requires Runs(ls, es) && Idle(ls[|es|])
    ensures Runs(more, events) && more[0] == ls[0] && Idle(more[|events|])
    ensures more[|events|].log == ls[|es|].log + [message]
    ensures var n := |ls[|es|].log|;
            more[|events|].wire == ls[|es|].wire + [Data(n, message)] + [Acknack(n + 1)]
  {
    var l := ls[|es|];
    var n := |l.log|;
    ExchangeHalf(l, message);
    hide Step, Inv, Idle, Has;
    more, events := RunExtendsByThree(ls, es, Push(message), SendNext, Arrive(Data(n, message)));
    var half := more[|events|];
    ExchangeRest(half);
    more, events := RunExtendsByThree(more, events, Pop, Answer, Arrive(Acknack(n + 1)));
  }

  lemma IdleNumbers<T>(l: Link<T>)
    requires Idle(l)
    ensures l.f == l.s == l.h == l.a == |l.log|
  {
  }

  lemma RunLength<T>(ls: seq<Link<T>>, es: seq<Event<T>>)
    requires Runs(ls, es)
    ensures |ls| == |es| + 1
  {
  }

  ghost function Copies<T>(message: T, n: nat): seq<T> {
    seq(n, i => message)
  }

  /** For every `n`, a run that exchanges `n` messages; the packet of the first one is still under way somewhere. */
  lemma {:induction false} ManyExchanges<T>(message: T, n: nat) returns (ls: seq<Link<T>>, es: seq<Event<T>>)
    ensures Runs(ls, es) && Initial(ls[0]) && Idle(ls[|es|]) && ls[|es|].log == Copies(message, n)
    ensures n == 0 ==> ls[|es|].wire == []
    ensures n > 0 ==> |ls[|es|].wire| > 0 && ls[|es|].wire[0] == Data(0, message)
  {
    if n == 0 {
      ls, es := [Fresh()], [];
    } else {
      ls, es := ManyExchanges(message, n - 1);
      hide Step, Inv, Idle, Enabled;
      ls, es := Exchanges(ls, es, message);
      assert Copies(message, n) == Copies(message, n - 1) + [message];
    }
  }

  /** After exactly 65536 messages a late copy of the very first one is delivered as message 65536, which nobody
      pushed. */
  lemma OldCopyDeliveredAgain<T>(message: T) returns (ls: seq<Link<T>>, es: seq<Event<T>>)
    ensures Runs(ls, es) && Initial(ls[0])
    ensures var l := ls[|es|];
            l.log == Copies(message, MAX) && l.delivered == l.log + [message]
  {
    ls, es := ManyExchanges(message, MAX);
    var (l, p) := (ls[|es|], Data(0, message));
    IdleReceiver(l);
    OldCopyKept(l, message);
    hide Step, Inv, Runs, Idle;
    RunLength(ls, es);
    var came := Step(l, Arrive(p));
    RunExtends(ls, es, Arrive(p));
    RunExtends(ls + [came], es + [Arrive(p)], Pop);
    ls, es := ls + [came] + [Step(came, Pop)], es + [Arrive(p)] + [Pop];
  }

  lemma OldCopyKept<T>(l: Link<T>, message: T)
    requires Data(0, message) in l.wire && l.receiver == Input(map[], 0xFFFF, 0xFFFF)
    ensures var m := Step(Step(l, Arrive(Data(0, message))), Pop);
            m.log == l.log && m.delivered == l.delivered + [message]
  {
    assert InWindow(l.receiver, 0);
    assert Kept(l.receiver, 0, message).messages == map[0 := message];
  }

  /** One message was pushed and none was sent in turn; `h` are delivered. */
  ghost predicate Unsent<T>(l: Link<T>, message: T, h: nat) {
    Inv(l) && Calm(l) && l.f == l.s == 0 && l.log == [message] && l.h == h && l.delivered == [message][..l.h]
  }

  lemma UnsentAtFirst<T>(message: T)
    ensures Unsent(Step(Fresh(), Push(message)), message, 0)
  {
    PushKeepsIff(Fresh(), message);
    assert Initial(Fresh<T>());
  }

  lemma UnsentRound<T>(l: Link<T>, message: T, h: nat)
    requires h <= 1 && Unsent(l, message, h)
    ensures Unsent(Round(l), message, 1)
  {
    RoundRecoversWindow(l);
    hide Inv, Round;
    InvDelivers(Round(l));
  }

  /** A message that a heartbeat made the receiver ask for, and that was never sent in turn: it is delivered after one
      round without losses, and not acknowledged after any number of them. */
  lemma {:induction false} UnsentNeverAcknowledged<T>(message: T, n: nat)
    ensures Unsent(Rounds(Step(Fresh(), Push(message)), n), message, if n == 0 then 0 else 1)
  {
    hide Unsent, Round, Step;
    var l := Step(Fresh<T>(), Push(message));
    if n == 0 {
      UnsentAtFirst(message);
    } else {
      UnsentNeverAcknowledged(message, n - 1);
      RoundsLast(l, n - 1);
      UnsentRound(Rounds(l, n - 1), message, if n == 1 then 0 else 1);
    }
  }

  lemma {:induction false} RoundsLast<T>(l: Link<T>, n: nat)
    ensures Rounds(l, n + 1) == Round(Rounds(l, n))
    decreases n
  {
    hide Round;
    if n > 0 {
      RoundsLast(Round(l), n - 1);
    }
  }

  /** More than 32767 messages pushed at once on an idle link: nothing is ever sent, no heartbeat announces anything,
      and no acknowledgement asks for anything. */
  lemma BurstStalls<T>(l: Link<T>, messages: seq<T>)
    requires Idle(l) && ADD_RANGE < |messages| <= MAX
    ensures var m := PushAll(l, messages);
            && Inv(m) && !HasNext(m.sender)
            && Announced(m.receiver, Image(m.f), Image(|m.log| - 1)) == m.receiver
            && (forall k :: 0 <= k < 16 ==> !Missing(m.receiver, k))
            && (WindowOpen(m.sender) <==> |messages| > ADD_RANGE + 1 + DEPTH)
  {
    hide Inv, PushAll, PushedAll, Announced, Missing, HasNext, WindowOpen, Image;
    IdleNumbers(l);
    PushAllKeepsIff(l, messages);
    PushAllIs(l, messages);
    var m := PushAll(l, messages);
    QuietLinkMovesIff(m);
    WindowAt(m);
  }

  lemma WindowAt<T>(l: Link<T>)
    requires Inv(l)
    ensures WindowOpen(l.sender) <==> |l.log| < l.f + DEPTH || |l.log| > l.f + DEPTH + ADD_RANGE + 1
  {
    WindowOpenExactly(l.sender, l.log, l.f, l.s);
  }

  // ---------- packets of an earlier run ----------

  /** The message of this run for which the number of some other message stands. */
  function StandsFor<T>(l: Link<T>, n: nat): nat {
    l.h + (n - l.h) % MAX
  }

  /** A number is taken for that of the message for which it stands. */
  lemma SameToTheReceiver<T>(l: Link<T>, n: nat, message: T)
    ensures Kept(l.receiver, Image(n), message) == Kept(l.receiver, Image(StandsFor(l, n)), message)
  {
    var q := (n - l.h) / MAX;
    assert n == StandsFor(l, n) + q * MAX;
    ModShift(StandsFor(l, n), q);
  }

  /**
   * A message of an earlier run that arrives in this one does harm if and only if its number is in the window and
   * free, and does not stand for that same message.
   */
  lemma OldMessageHarmsIff<T>(l: Link<T>, n: nat, message: T)
    requires Inv(l) && Calm(l)
    ensures var m := StandsFor(l, n);
            Inv(Received(l, Data(m, message))) <==>
            !(m < l.h + DEPTH && !Has(l, m) && !(m < |l.log| && l.log[m] == message))
  {
    var m := StandsFor(l, n);
    hide Image, LooksAhead;
    InvDelivers(l);
    if m < |l.log| && l.log[m] == message {
      RecentDataRead(l, m);
      ArriveKeepsIff(l, Data(m, message));
    } else if m >= l.h + DEPTH {
      OutsideIsIgnored(l, m, message);
    } else if Has(l, m) {
      PresentIsIgnored(l, m, message);
    } else {
      ForeignIsKept(l, m, message);
    }
  }

  lemma OutsideIsIgnored<T>(l: Link<T>, m: nat, message: T)
    requires Inv(l) && l.h + DEPTH <= m < l.h + MAX
    ensures Received(l, Data(m, message)) == l
  {
    hide Image, Greater, Less, InWindow, LooksAhead, SenderAt, ReceiverAt;
    WindowExactly(l.receiver, l.log, l.h, l.a, m);
    SmallModulo(m - l.h);
  }

  lemma SmallModulo(d: int)
    requires 0 <= d < MAX
    ensures d % MAX == d
  {
  }

  lemma PresentIsIgnored<T>(l: Link<T>, m: nat, message: T)
    requires Inv(l) && Calm(l) && l.h <= m < l.h + DEPTH && Has(l, m)
    ensures Received(l, Data(m, message)) == l
  {
    WindowExactly(l.receiver, l.log, l.h, l.a, m);
    Ahead(l.h, m - l.h, Image(m));
    LooksAheadWithin(m + 1 - l.a);
  }

  lemma ForeignIsKept<T>(l: Link<T>, m: nat, message: T)
    requires Inv(l) && l.h <= m < l.h + DEPTH && !Has(l, m) && !(m < |l.log| && l.log[m] == message)
    ensures !Inv(Received(l, Data(m, message)))
  {
    hide Image, Greater, Less, InWindow, LooksAhead, SenderAt, ReceiverAt, Distance;
    WindowExactly(l.receiver, l.log, l.h, l.a, m);
    SmallModulo(m - l.h);
    var after := Received(l, Data(m, message));
    assert Has(after, m) && after.receiver.messages[Image(m)] == message;
    KeptIsOwn(after, m);
  }

  /** What a receiver keeps in its window is the message of that number. */
  lemma KeptIsOwn<T>(l: Link<T>, m: nat)
    requires Has(l, m) && l.h <= m < l.h + DEPTH
    ensures Inv(l) ==> m < |l.log| && l.receiver.messages[Image(m)] == l.log[m]
  {
    Ahead(l.h, m - l.h, Image(m));
  }

  /** A heartbeat of an earlier run is ignored if and only if neither of its numbers looks ahead. */
  lemma OldHeartbeatIgnoredIff<T>(l: Link<T>, first: nat, end: nat)
    requires Inv(l)
    ensures Announced(l.receiver, Image(first), Image(end - 1)) == l.receiver <==>
            !LooksAhead(first - l.h) && !LooksAhead(end - l.a)
  {
    ArithmeticCommutes(l.h - 1, 1);
    ArithmeticCommutes(first, 1);
    LessModulo(l.h, first);
    SameImage(l.h - 1, first - 1);
    LessModulo(l.a - 1, end - 1);
    SameImage(l.a - 1, end - 1);
  }

  /** A message of the run before a restart is delivered in the new one, where nothing was pushed. */
  lemma OldMessageDelivered<T>(message: T)
    ensures var l := Step(Received(Fresh(), Data(0, message)), Pop);
            l.log == [] && l.delivered == [message]
  {
    assert Initial(Fresh<T>());
    assert InWindow(Fresh<T>().receiver, 0);
    assert Kept(Fresh<T>().receiver, 0, message).messages == map[0 := message];
  }
}
