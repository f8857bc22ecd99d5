/**
 * A reliable output stream and a reliable input stream over a network that loses, repeats and reorders packets
 * (OutputStream.hpp:266-425 and InputStream.hpp:246-366 of include/uxr/agent/client/session/stream).
 *
 * Unbounded counters stand behind the sixteen-bit numbers: `f` messages are acknowledged, `s` were sent at least once,
 * `|log|` were pushed; the receiver has handled `h` and knows of `a`.
 */
module ReliableLinks {

  import opened Arithmetic
  import opened SeqNums
  import opened Words
  import opened ReliableStreams

  /** A counter `d` steps ahead looks ahead on the number circle. */
  predicate LooksAhead(d: int) {
    1 <= d % MAX <= ADD_RANGE
  }

  /** What the serial comparison says about any two counters, however far apart. */
  lemma LessModulo(a: int, b: int)
    ensures Less(Image(a), Image(b)) <==> LooksAhead(b - a)
  {
    DistanceOfImages(a, b);
    LessIsShortDistance(Image(a), Image(b));
  }

  lemma SameImage(a: int, b: int)
    ensures Image(a) == Image(b) <==> (b - a) % MAX == 0
  {
    DistanceOfImages(a, b);
    assert Image(a) == Image(b) <==> Distance(Image(a), Image(b)) == 0;
  }

  /** Within one turn of the circle, half of it looks ahead. */
  lemma LooksAheadWithin(d: int)
    requires -MAX <= d <= MAX
    ensures LooksAhead(d) <==> 1 <= d <= ADD_RANGE || -MAX < d < -ADD_RANGE - 1
  {
  }

  lemma Ahead(n: int, d: int, k: uint16)
    requires 0 <= d < MAX
    ensures Distance(Image(n), k) == d <==> k == Image(n + d)
  {
    DistanceOfImages(n, n + d);
    DistanceDetermines(Image(n), k, Image(n + d));
  }

  lemma DistanceDetermines(from: uint16, a: uint16, b: uint16)
    ensures Distance(from, a) == Distance(from, b) <==> a == b
  {
    assert Distance(from, a) == if a >= from then a - from else a - from + MAX;
    assert Distance(from, b) == if b >= from then b - from else b - from + MAX;
  }

  lemma DistanceFromNext(n: int, k: uint16)
    ensures Distance(Image(n), k) == 0 <==> k == Image(n)
    ensures k != Image(n) ==> Distance(Image(n + 1), k) == Distance(Image(n), k) - 1
  {
    var d := Distance(Image(n), k);
    Ahead(n, d, k);
    Ahead(n, 0, k);
    if k != Image(n) {
      Ahead(n + 1, d - 1, k);
    }
  }

  ghost predicate SenderAt<T>(o: Output<T>, log: seq<T>, f: nat, s: nat) {
    && f <= s <= |log| <= f + MAX
    && o.firstUnacked == Image(f) && o.lastSent == Image(s - 1) && o.lastUnacked == Image(|log| - 1)
    && (forall k: uint16 :: k in o.messages <==> Distance(o.firstUnacked, k) < |log| - f)
    && (forall k: uint16 :: k in o.messages ==> o.messages[k] == log[f + Distance(o.firstUnacked, k)])
  }

  ghost predicate ReceiverAt<T>(i: Input<T>, log: seq<T>, h: nat, a: nat) {
    && h <= a <= |log| <= h + MAX
    && i.lastHandled == Image(h - 1) && i.lastAnnounced == Image(a - 1)
    && (forall k: uint16 :: k in i.messages ==>
          var d := Distance(Image(h), k); d < DEPTH && h + d < a && i.messages[k] == log[h + d])
  }

  // ---------- the sender's steps ----------

  /** A message is kept under its number exactly while fewer than 65536 messages are unacknowledged. */
  lemma PushKeepsSender<T>(o: Output<T>, log: seq<T>, f: nat, s: nat, message: T)
    requires SenderAt(o, log, f, s)
    ensures SenderAt(Pushed(o, message), log + [message], f, s) <==> |log| < f + MAX
    ensures |log| == f + MAX ==> Pushed(o, message).messages == o.messages
  {
    ArithmeticCommutes(|log| - 1, 1);
    if |log| < f + MAX {
      forall k: uint16
        ensures k == Image(|log|) <==> Distance(o.firstUnacked, k) == |log| - f
      {
        Ahead(f, |log| - f, k);
      }
    }
  }

  /** The window of 16 is open below 16 unacknowledged messages, and again from 32785 on. */
  lemma WindowOpenExactly<T>(o: Output<T>, log: seq<T>, f: nat, s: nat)
    requires SenderAt(o, log, f, s)
    ensures WindowOpen(o) <==> |log| - f < 16 || |log| - f >= 32785
  {
    ArithmeticCommutes(f, DEPTH - 1);
    LessModulo(|log| - 1, f + DEPTH - 1);
    LooksAheadWithin(f + DEPTH - |log|);
  }

  /** A message that was never sent is there, so that the lookup of `get_next_message` cannot fail; more than 32767 of
      them hide. */
  lemma NextIsThere<T>(o: Output<T>, log: seq<T>, f: nat, s: nat)
    requires SenderAt(o, log, f, s)
    ensures HasNext(o) <==> 1 <= |log| - s <= ADD_RANGE
    ensures HasNext(o) ==> AddInt(o.lastSent, 1) in o.messages && o.messages[AddInt(o.lastSent, 1)] == log[s]
    ensures HasNext(o) ==> SenderAt(o.(lastSent := AddInt(o.lastSent, 1)), log, f, s + 1)
  {
    LessModulo(s - 1, |log| - 1);
    LooksAheadWithin(|log| - s);
    ArithmeticCommutes(s - 1, 1);
    if s - f < MAX {
      Ahead(f, s - f, Image(s));
    }
  }

  /** What `get_message` finds: exactly the unacknowledged messages, each under its number. */
  lemma KeptExactly<T>(o: Output<T>, log: seq<T>, f: nat, s: nat, n: int)
    requires SenderAt(o, log, f, s) && f <= n < f + MAX
    ensures Image(n) in o.messages <==> n < |log|
    ensures n < |log| ==> o.messages[Image(n)] == log[n]
  {
    Ahead(f, n - f, Image(n));
  }

  lemma DropKeepsSender<T>(o: Output<T>, log: seq<T>, f: nat, s: nat)
    requires SenderAt(o, log, f, s) && f < s
    ensures SenderAt(o.(messages := o.messages - {o.firstUnacked}, firstUnacked := AddInt(o.firstUnacked, 1)), log,
                     f + 1, s)
  {
    ArithmeticCommutes(f, 1);
    forall k: uint16
      ensures Distance(Image(f), k) == 0 <==> k == Image(f)
      ensures k != Image(f) ==> Distance(Image(f + 1), k) == Distance(Image(f), k) - 1
    {
      DistanceFromNext(f, k);
    }
    Ahead(f + 1, MAX - 1, Image(f));
    assert Image(f + MAX) == Image(f);
  }

  /** The loop drops as many messages as the number looks ahead. */
  lemma {:induction false} DropsKeepSender<T>(o: Output<T>, log: seq<T>, f: nat, s: nat, first: int)
    requires SenderAt(o, log, f, s) && (LooksAhead(first - f) ==> f + (first - f) % MAX <= s)
    ensures SenderAt(Dropped(o, Image(first)), log, if LooksAhead(first - f) then f + (first - f) % MAX else f, s)
    decreases (first - f) % MAX
  {
    LessModulo(f, first);
    if LooksAhead(first - f) {
      OneStepCloser(first - f);
      DropKeepsSender(o, log, f, s);
      DropsKeepSender(o.(messages := o.messages - {o.firstUnacked}, firstUnacked := AddInt(o.firstUnacked, 1)), log,
                      f + 1, s, first);
    }
  }

  lemma OneStepCloser(d: int)
    requires LooksAhead(d)
    ensures (d - 1) % MAX == d % MAX - 1
  {
  }

  lemma {:induction false} DroppedReaches<T>(o: Output<T>, first: uint16)
    ensures Dropped(o, first).firstUnacked == if Greater(first, o.firstUnacked) then first else o.firstUnacked
    decreases Distance(o.firstUnacked, first)
  {
    if Greater(first, o.firstUnacked) {
      LessIsShortDistance(o.firstUnacked, first);
      var next := o.(messages := o.messages - {o.firstUnacked}, firstUnacked := AddInt(o.firstUnacked, 1));
      DroppedReaches(next, first);
      LessIsShortDistance(next.firstUnacked, first);
    }
  }

  /** The number of acknowledged messages after an acknowledgement. */
  function AckedTo(f: nat, s: nat, first: nat): nat {
    if f < first <= s then first else f
  }

  /** The tests that `update_from_acknack` makes. */
  predicate AckMoves(f: nat, s: nat, first: nat) {
    !LooksAhead(first - s) && LooksAhead(first - f)
  }

  lemma AckDecision<T>(o: Output<T>, log: seq<T>, f: nat, s: nat, first: nat)
    requires SenderAt(o, log, f, s)
    ensures Acked(o, Image(first)) == if LooksAhead(first - s) then o else Dropped(o, Image(first))
    ensures Greater(Image(first), o.firstUnacked) <==> LooksAhead(first - f)
    ensures !AckMoves(f, s, first) ==> Acked(o, Image(first)) == o
  {
    ArithmeticCommutes(s - 1, 1);
    LessModulo(s, first);
    LessModulo(f, first);
  }

  /** An acknowledgement is read as it was meant if and only if the two tests move on exactly for the numbers between.
      */
  lemma AckKeepsSenderIff<T>(o: Output<T>, log: seq<T>, f: nat, s: nat, first: nat)
    requires SenderAt(o, log, f, s)
    ensures SenderAt(Acked(o, Image(first)), log, AckedTo(f, s, first), s) <==>
            (AckMoves(f, s, first) <==> f < first <= s)
  {
    hide SenderAt, Acked, Dropped, LooksAhead;
    AckDecision(o, log, f, s, first);
    if f < first <= s {
      if AckMoves(f, s, first) {
        AckDrops(o, log, f, s, first);
      } else {
        NotThereYet(o, log, f, s, first);
      }
    } else if AckMoves(f, s, first) {
      GoneTooFar(o, log, f, s, first);
    }
  }

  lemma AckDrops<T>(o: Output<T>, log: seq<T>, f: nat, s: nat, first: nat)
    requires SenderAt(o, log, f, s) && f < first <= s && LooksAhead(first - f)
    ensures SenderAt(Dropped(o, Image(first)), log, first, s)
  {
    hide Dropped;
    LooksAheadWithin(first - f);
    DropsKeepSender(o, log, f, s, first);
  }

  /** A sender that has not dropped anything is not where it would be after dropping. */
  lemma NotThereYet<T>(o: Output<T>, log: seq<T>, f: nat, s: nat, first: nat)
    requires SenderAt(o, log, f, s) && f < first <= s
    ensures !SenderAt(o, log, first, s)
  {
    SameImage(f, first);
    if first - f == MAX {
      assert Distance(o.firstUnacked, o.firstUnacked) == 0;
      assert o.firstUnacked in o.messages;
    } else {
      assert (first - f) % MAX == first - f;
    }
  }

  /** A sender that has dropped something is not where it was. */
  lemma GoneTooFar<T>(o: Output<T>, log: seq<T>, f: nat, s: nat, first: nat)
    requires SenderAt(o, log, f, s) && LooksAhead(first - f) && Greater(Image(first), o.firstUnacked)
    ensures !SenderAt(Dropped(o, Image(first)), log, f, s)
  {
    hide Dropped;
    DroppedReaches(o, Image(first));
    SameImage(f, first);
  }

  // ---------- the receiver's steps ----------

  /** Which messages `push_message` takes to be in the window, and which to be new, of whatever age they are. */
  lemma WindowExactly<T>(i: Input<T>, log: seq<T>, h: nat, a: nat, n: nat)
    requires ReceiverAt(i, log, h, a)
    ensures InWindow(i, Image(n)) <==> (n - h) % 65536 < 16
    ensures Greater(Image(n), i.lastAnnounced) <==> LooksAhead(n + 1 - a)
  {
    ArithmeticCommutes(h - 1, DEPTH);
    LessModulo(h - 1, n);
    LessModulo(h - 1 + DEPTH, n);
    LessModulo(a - 1, n);
    WindowModulo(n - h);
  }

  lemma WindowModulo(d: int)
    ensures LooksAhead(d + 1) && !LooksAhead(d + 1 - DEPTH) <==> d % MAX < DEPTH
  {
    var r := d % MAX;
    ModShift(r + 1, d / MAX);
    ModShift(r + 1 - DEPTH, d / MAX);
    assert d == r + d / MAX * MAX;
  }

  /** What the receiver knows of after a message. */
  function KnownAfter(h: nat, a: nat, n: nat): nat {
    if h <= n < h + DEPTH && n >= a then n + 1 else a
  }

  /**
   * A message does no harm: it is outside the window as the code sees it, or it is announced as it should be, and it is
   * there already, or it is the message of that number.
   */
  ghost predicate DataRead<T>(i: Input<T>, log: seq<T>, h: nat, a: nat, n: nat)
    requires n < |log| && a <= |log|
  {
    var d := (n - h) % MAX;
    d < DEPTH ==>
      && (LooksAhead(n + 1 - a) <==> h <= n < h + DEPTH && n >= a)
      && (Image(n) in i.messages || (h + d < KnownAfter(h, a, n) && log[h + d] == log[n]))
  }

  lemma KeepKeepsReceiverIff<T>(i: Input<T>, log: seq<T>, h: nat, a: nat, n: nat)
    requires ReceiverAt(i, log, h, a) && n < |log|
    ensures ReceiverAt(Kept(i, Image(n), log[n]), log, h, KnownAfter(h, a, n)) <==> DataRead(i, log, h, a, n)
  {
    WindowExactly(i, log, h, a, n);
    DistanceOfImages(h, n);
    SameImage(a - 1, n);
    if (n - h) % MAX < DEPTH {
      KeptMessageIff(i, log, h, a, n);
    }
  }

  lemma KeptMessageIff<T>(i: Input<T>, log: seq<T>, h: nat, a: nat, n: nat)
    requires ReceiverAt(i, log, h, a) && n < |log| && (n - h) % MAX < DEPTH && InWindow(i, Image(n))
    requires Distance(Image(h), Image(n)) == (n - h) % MAX
    requires Greater(Image(n), i.lastAnnounced) <==> LooksAhead(n + 1 - a)
    requires LooksAhead(n + 1 - a) ==> Image(a - 1) != Image(n)
    requires Image(a - 1) == Image(n) <==> (n - (a - 1)) % MAX == 0
    ensures ReceiverAt(Kept(i, Image(n), log[n]), log, h, KnownAfter(h, a, n)) <==> DataRead(i, log, h, a, n)
  {
    hide Greater, Less, InWindow, LooksAhead, Image;
    if Image(n) in i.messages {
    } else {
    }
  }

  /** An old copy is taken for a new message exactly when its age is within 16 below a multiple of 65536; all others
      are ignored. */
  lemma StaleCopyKeptIff<T>(i: Input<T>, log: seq<T>, h: nat, a: nat, n: nat, message: T)
    requires ReceiverAt(i, log, h, a) && n < h && Image(n) !in i.messages
    ensures if (n - h) % MAX < DEPTH then Kept(i, Image(n), message).messages == i.messages[Image(n) := message]
            else Kept(i, Image(n), message) == i
  {
    WindowExactly(i, log, h, a, n);
  }

  lemma PopKeepsReceiver<T>(i: Input<T>, log: seq<T>, h: nat, a: nat)
    requires ReceiverAt(i, log, h, a)
    ensures AddInt(i.lastHandled, 1) == Image(h)
    ensures Image(h) in i.messages ==> h < a && i.messages[Image(h)] == log[h] && ReceiverAt(Popped(i), log, h + 1, a)
    ensures Image(h) !in i.messages ==> Popped(i) == i
  {
    ArithmeticCommutes(h - 1, 1);
    Ahead(h, 0, Image(h));
    if Image(h) in i.messages {
      forall k: uint16 | k in i.messages && k != Image(h)
        ensures Distance(Image(h + 1), k) == Distance(Image(h), k) - 1
      {
        DistanceFromNext(h, k);
      }
    }
  }

  /** A heartbeat makes the receiver skip nothing, and announces what it should. */
  predicate BeatRead(h: nat, a: nat, first: nat, end: nat) {
    && !LooksAhead(first - h)
    && (if end > a then (end - a) % MAX <= ADD_RANGE else !LooksAhead(end - a))
  }

  lemma BeatKeepsReceiverIff<T>(i: Input<T>, log: seq<T>, h: nat, a: nat, first: nat, end: nat)
    requires ReceiverAt(i, log, h, a) && first <= h && end <= |log|
    ensures ReceiverAt(Announced(i, Image(first), Image(end - 1)), log, h, if end > a then end else a)
            <==> BeatRead(h, a, first, end)
  {
    ArithmeticCommutes(h - 1, 1);
    ArithmeticCommutes(first, 1);
    LessModulo(h, first);
    SameImage(h - 1, first - 1);
    LessModulo(a - 1, end - 1);
    SameImage(a - 1, end - 1);
  }

  /** A heartbeat whose first message lies ahead makes the receiver wait for exactly that message if and only if it
      is less than 32768 ahead, round the circle; otherwise it waits for the same message as before.  What it holds
      stays, so the first message is handed out next if it came already. */
  lemma BeatSkipsIff<T>(i: Input<T>, log: seq<T>, h: nat, a: nat, first: nat, end: nat)
    requires ReceiverAt(i, log, h, a) && h < first <= end
    ensures var j := Announced(i, Image(first), Image(end - 1));
            && j.messages == i.messages
            && (j.lastHandled == Image(first - 1) <==> (first - h) % 65536 < 32768)
            && ((first - h) % 65536 >= 32768 ==> j.lastHandled == i.lastHandled)
    ensures first < h + 32768 && Image(first) in i.messages ==> first < a && i.messages[Image(first)] == log[first]
  {
    ArithmeticCommutes(h - 1, 1);
    ArithmeticCommutes(first, 1);
    LessModulo(h, first);
    SameImage(h - 1, first - 1);
    if first < h + 32768 {
      Ahead(h, first - h, Image(first));
    }
  }

  /** The bitmap of an acknowledgement names the messages of the window that look announced and are not there. */
  lemma MissingExactly<T>(i: Input<T>, log: seq<T>, h: nat, a: nat, k: nat)
    requires ReceiverAt(i, log, h, a) && k < 16
    ensures Missing(i, k) <==> LooksAhead(a - h - k) && Image(h + k) !in i.messages
    ensures a <= h + ADD_RANGE ==> (LooksAhead(a - h - k) <==> h + k < a)
  {
    hide AddSeq, Less, LooksAhead, Image;
    WindowNumbers(h, k);
    LessModulo(h - 1 + k, a - 1);
    assert a - 1 - (h - 1 + k) == a - h - k;
    if a <= h + ADD_RANGE {
      ReachWithin(a - h - k);
    }
  }

  lemma WindowNumbers(h: nat, k: nat)
    requires k < 16
    ensures AddSeq(Image(h - 1), k) == Image(h - 1 + k) && AddSeq(Image(h - 1), k + 1) == Image(h + k)
  {
    hide AddSeq, AddInt, Image, Sub, Next;
    SmallImage(k);
    SmallImage(k + 1);
    ArithmeticCommutes(h - 1, k);
    ArithmeticCommutes(h - 1, k + 1);
    assert h - 1 + (k + 1) == h + k;
  }

  lemma SmallImage(k: nat)
    requires k < MAX
    ensures Image(k) == k
  {
  }

  lemma ReachWithin(d: int)
    requires -16 < d <= ADD_RANGE
    ensures LooksAhead(d) <==> d > 0
  {
    LooksAheadWithin(d);
  }

  // ---------- the link ----------

  /** A packet and the counters behind its sixteen-bit numbers. */
  datatype Packet<T> = Data(n: nat, message: T) | Heartbeat(first: nat, end: nat) | Acknack(first: nat)

  datatype Link<T> = Link(
    sender: Output<T>, receiver: Input<T>, wire: seq<Packet<T>>,
    log: seq<T>, f: nat, s: nat, h: nat, a: nat, delivered: seq<T>)

  datatype Event<T> =
    | Push(message: T)
    | SendNext
    | Resend(number: uint16)
    | Beat
    | Answer
    | Arrive(packet: Packet<T>)
    | Pop

  /** Whatever was sent may arrive, at any time and any number of times, or never. */
  ghost predicate Enabled<T>(l: Link<T>, e: Event<T>) {
    e.Arrive? ==> e.packet in l.wire
  }

  ghost function Received<T>(l: Link<T>, p: Packet<T>): Link<T> {
    match p
    case Data(n, message) =>
      l.(receiver := Kept(l.receiver, Image(n), message), a := KnownAfter(l.h, l.a, n))
    case Heartbeat(first, end) =>
      l.(receiver := Announced(l.receiver, Image(first), Image(end - 1)), a := if end > l.a then end else l.a)
    case Acknack(first) =>
      l.(sender := Acked(l.sender, Image(first)), f := AckedTo(l.f, l.s, first))
  }

  /** Packets carry what the streams hold; the counters say which message that is. */
  ghost function Step<T>(l: Link<T>, e: Event<T>): Link<T>
    requires Enabled(l, e)
  {
    match e
    case Push(message) =>
      l.(sender := Pushed(l.sender, message), log := l.log + [message])
    case SendNext =>
      var n := AddInt(l.sender.lastSent, 1);
      if HasNext(l.sender) && n in l.sender.messages then
        l.(sender := l.sender.(lastSent := n), wire := l.wire + [Data(l.s, l.sender.messages[n])], s := l.s + 1)
      else l
    case Resend(number) =>
      if number in l.sender.messages then
        l.(wire := l.wire + [Data(l.f + Distance(l.sender.firstUnacked, number), l.sender.messages[number])])
      else l
    case Beat => l.(wire := l.wire + [Heartbeat(l.f, |l.log|)])
    case Answer => l.(wire := l.wire + [Acknack(l.h)])
    case Arrive(p) => Received(l, p)
    case Pop =>
      var n := AddInt(l.receiver.lastHandled, 1);
      if n in l.receiver.messages then
        l.(receiver := Popped(l.receiver), h := l.h + 1, delivered := l.delivered + [l.receiver.messages[n]])
      else l
  }

  /** What a packet on the wire says was true when it was sent. */
  ghost predicate Honest<T>(l: Link<T>, p: Packet<T>) {
    match p
    case Data(n, message) => n < |l.log| && message == l.log[n]
    case Heartbeat(first, end) => first <= l.f && first <= end <= |l.log|
    case Acknack(first) => first <= l.h
  }

  ghost predicate Inv<T>(l: Link<T>) {
    && SenderAt(l.sender, l.log, l.f, l.s)
    && ReceiverAt(l.receiver, l.log, l.h, l.a)
    && l.f <= l.h
    && l.delivered == l.log[..l.h]
    && (forall p :: p in l.wire ==> Honest(l, p))
  }

  /** The packet is read as it was meant, by the numbers alone. */
  ghost predicate ReadRight<T>(l: Link<T>, p: Packet<T>)
    requires Inv(l) && Honest(l, p)
  {
    match p
    case Data(n, _) => DataRead(l.receiver, l.log, l.h, l.a, n)
    case Heartbeat(first, end) => BeatRead(l.h, l.a, first, end)
    case Acknack(first) => AckMoves(l.f, l.s, first) <==> l.f < first <= l.s
  }

  /** The conditions of the protocol: numbers are not reused while unacknowledged, and arriving packets are read
      right. */
  ghost predicate Proper<T>(l: Link<T>, e: Event<T>)
    requires Inv(l) && Enabled(l, e)
  {
    match e
    case Push(_) => |l.log| < l.f + MAX
    case Arrive(p) => ReadRight(l, p)
    case _ => true
  }

  lemma PushKeepsIff<T>(l: Link<T>, message: T)
    requires Inv(l)
    ensures Inv(Step(l, Push(message))) <==> |l.log| < l.f + MAX
  {
    PushKeepsSender(l.sender, l.log, l.f, l.s, message);
    ReceiverKeepsLonger(l.receiver, l.log, message, l.h, l.a);
    hide SenderAt, ReceiverAt, Pushed;
  }

  lemma ReceiverKeepsLonger<T>(i: Input<T>, log: seq<T>, message: T, h: nat, a: nat)
    requires ReceiverAt(i, log, h, a)
    ensures ReceiverAt(i, log + [message], h, a) <==> |log| < h + MAX
  {
  }

  lemma SendKeeps<T>(l: Link<T>)
    requires Inv(l)
    ensures Inv(Step(l, SendNext))
  {
    NextIsThere(l.sender, l.log, l.f, l.s);
  }

  lemma ArriveKeepsIff<T>(l: Link<T>, p: Packet<T>)
    requires Inv(l) && Honest(l, p)
    ensures Inv(Received(l, p)) <==> ReadRight(l, p)
  {
    hide DataRead, BeatRead, AckMoves, SenderAt;
    match p
    case Data(n, _) =>
      KeepKeepsReceiverIff(l.receiver, l.log, l.h, l.a, n);
    case Heartbeat(first, end) =>
      BeatKeepsReceiverIff(l.receiver, l.log, l.h, l.a, first, end);
    case Acknack(first) =>
      AckKeepsSenderIff(l.sender, l.log, l.f, l.s, first);
  }

  lemma PopKeeps<T>(l: Link<T>)
    requires Inv(l)
    ensures Inv(Step(l, Pop))
  {
    PopKeepsReceiver(l.receiver, l.log, l.h, l.a);
  }

  /** From any state of the protocol, the next step stays in it if and only if it is proper. */
  lemma StepKeepsInvIff<T>(l: Link<T>, e: Event<T>)
    requires Inv(l) && Enabled(l, e)
    ensures Inv(Step(l, e)) <==> Proper(l, e)
  {
    match e
    case Push(message) => PushKeepsIff(l, message);
    case SendNext => SendKeeps(l);
    case Arrive(p) => ArriveKeepsIff(l, p);
    case Pop => PopKeeps(l);
    case _ =>
  }

  ghost predicate Initial<T>(l: Link<T>) {
    l == Link(Output(map[], 0xFFFF, 0xFFFF, 0), Input(map[], 0xFFFF, 0xFFFF), [], [], 0, 0, 0, 0, [])
  }

  ghost predicate Runs<T>(ls: seq<Link<T>>, es: seq<Event<T>>) {
    && |ls| == |es| + 1
    && (forall i :: 0 <= i < |es| ==> Enabled(ls[i], es[i]) && ls[i + 1] == Step(ls[i], es[i]))
  }

  ghost predicate ProperAt<T>(ls: seq<Link<T>>, es: seq<Event<T>>, i: nat)
    requires Runs(ls, es) && i < |es|
  {
    Inv(ls[i]) ==> Proper(ls[i], es[i])
  }

  /** As long as every step is proper: whatever the network does, the receiver delivers a prefix of what was pushed. */
  lemma {:induction false} RunKeepsInv<T>(ls: seq<Link<T>>, es: seq<Event<T>>, n: nat)
    requires Runs(ls, es) && Initial(ls[0]) && n <= |es|
    requires forall i :: 0 <= i < n ==> ProperAt(ls, es, i)
    ensures Inv(ls[n]) && ls[n].delivered <= ls[n].log
  {
    hide Proper, Inv;
    if n == 0 {
      InitialKeeps(ls[0]);
    } else {
      RunKeepsInv(ls, es, n - 1);
      assert ProperAt(ls, es, n - 1);
      StepKeepsInvIff(ls[n - 1], es[n - 1]);
      InvDelivers(ls[n]);
    }
  }

  lemma InitialKeeps<T>(l: Link<T>)
    requires Initial(l)
    ensures Inv(l) && l.delivered <= l.log
  {
  }

  /** Over whole runs: the protocol is kept throughout if and only if every step is proper. */
  lemma RunKeptIffProper<T>(ls: seq<Link<T>>, es: seq<Event<T>>)
    requires Runs(ls, es) && Initial(ls[0])
    ensures (forall i :: 0 <= i < |ls| ==> Inv(ls[i])) <==> (forall i :: 0 <= i < |es| ==> ProperAt(ls, es, i))
  {
    hide Proper, Inv;
    if forall i :: 0 <= i < |ls| ==> Inv(ls[i]) {
      forall i | 0 <= i < |es|
        ensures ProperAt(ls, es, i)
      {
        assert Inv(ls[i + 1]);
        StepKeepsInvIff(ls[i], es[i]);
      }
    } else if forall i :: 0 <= i < |es| ==> ProperAt(ls, es, i) {
      forall i | 0 <= i < |ls|
        ensures Inv(ls[i])
      {
        RunKeepsInv(ls, es, i);
      }
    }
  }

  lemma InvDelivers<T>(l: Link<T>)
    requires Inv(l)
    ensures l.delivered == l.log[..l.h] && l.h <= l.a <= |l.log|
  {
  }

  // ---------- a round without losses recovers the window ----------

  /** Fewer than half the numbers are in use, so that whatever is sent now is read right if it arrives now. */
  ghost predicate Calm<T>(l: Link<T>) {
    |l.log| <= l.f + ADD_RANGE
  }

  lemma CalmBeatRead<T>(l: Link<T>)
    requires Inv(l) && Calm(l)
    ensures BeatRead(l.h, l.a, l.f, |l.log|)
  {
    LooksAheadWithin(l.f - l.h);
    LooksAheadWithin(|l.log| - l.a);
  }

  lemma CalmAckRead<T>(l: Link<T>)
    requires Inv(l) && Calm(l)
    ensures AckMoves(l.f, l.s, l.h) <==> l.f < l.h <= l.s
  {
    LooksAheadWithin(l.h - l.s);
    LooksAheadWithin(l.h - l.f);
  }

  /** How old a packet may be: data nearly a whole turn of the circle, heartbeats and acknowledgements half of it. */
  ghost predicate Recent<T>(l: Link<T>, p: Packet<T>) {
    match p
    case Data(n, _) => l.h - n <= MAX - DEPTH
    case Heartbeat(first, end) => l.h - first <= ADD_RANGE + 1 && l.a - end <= ADD_RANGE + 1
    case Acknack(first) => l.f - first <= ADD_RANGE + 1
  }

  lemma RecentDataRead<T>(l: Link<T>, n: nat)
    requires Inv(l) && Calm(l) && n < |l.log| && l.h - n <= MAX - DEPTH
    ensures DataRead(l.receiver, l.log, l.h, l.a, n)
  {
    if n < l.h {
      assert (n - l.h) % MAX == n - l.h + MAX;
    } else {
      assert (n - l.h) % MAX == n - l.h;
      LooksAheadWithin(n + 1 - l.a);
    }
  }

  lemma RecentIsReadRight<T>(l: Link<T>, p: Packet<T>)
    requires Inv(l) && Calm(l) && Honest(l, p) && Recent(l, p)
    ensures ReadRight(l, p)
  {
    match p
    case Data(n, _) =>
      RecentDataRead(l, n);
    case Heartbeat(first, end) =>
      LooksAheadWithin(first - l.h);
      LooksAheadWithin(end - l.a);
    case Acknack(first) =>
      LooksAheadWithin(first - l.s);
      LooksAheadWithin(first - l.f);
  }

  /** Send a packet and let it arrive. */
  ghost function Through<T>(l: Link<T>, e: Event<T>): Link<T>
    requires Enabled(l, e)
  {
    var m := Step(l, e);
    if |m.wire| > |l.wire| then Step(m, Arrive(m.wire[|m.wire| - 1])) else m
  }

  /** The answer to an acknowledgement: resend what bits `0` to `k - 1` of its bitmap ask for. */
  ghost function Repaired<T>(l: Link<T>, k: nat): Link<T>
    requires k <= 16
  {
    if k == 0 then l
    else
      var m := Repaired(l, k - 1);
      if Missing(l.receiver, k - 1) then Through(m, Resend(AddInt(Image(l.h), k - 1))) else m
  }

  ghost function PoppedTimes<T>(l: Link<T>, n: nat): Link<T>
    decreases n
  {
    if n == 0 then l else PoppedTimes(Step(l, Pop), n - 1)
  }

  /** The receiver answers; the sender resends what is missing and then takes note of the acknowledgement. */
  ghost function Answered<T>(l: Link<T>): Link<T> {
    var m := Repaired(Step(l, Answer), 16);
    if Acknack(l.h) in m.wire then Step(m, Arrive(Acknack(l.h))) else m
  }

  /** Heartbeat, acknowledgement, retransmission, delivery, with nothing lost. */
  ghost function Round<T>(l: Link<T>): Link<T> {
    PoppedTimes(Answered(Through(l, Beat)), 16)
  }

  ghost predicate SameCounters<T>(l: Link<T>, m: Link<T>) {
    l.log == m.log && l.f == m.f && l.s == m.s && l.h == m.h && l.a == m.a
  }

  ghost predicate Has<T>(l: Link<T>, n: nat) {
    Image(n) in l.receiver.messages
  }

  ghost predicate HasAll<T>(l: Link<T>, from: nat, to: nat) {
    forall n :: from <= n < to ==> Has(l, n)
  }

  lemma MissingAt<T>(l: Link<T>, k: nat)
    requires Inv(l) && Calm(l) && k < 16
    ensures Missing(l.receiver, k) <==> l.h + k < l.a && !Has(l, l.h + k)
    ensures AddInt(Image(l.h), k) == Image(l.h + k)
  {
    MissingExactly(l.receiver, l.log, l.h, l.a, k);
    ArithmeticCommutes(l.h, k);
  }

  lemma BeatArrives<T>(l: Link<T>)
    requires Inv(l) && Calm(l)
    ensures var m := Through(l, Beat);
            Inv(m) && SameCounters(l.(a := |l.log|), m)
  {
    StepKeepsInvIff(l, Beat);
    CalmBeatRead(l);
    StepKeepsInvIff(Step(l, Beat), Arrive(Heartbeat(l.f, |l.log|)));
  }

  lemma ResendSends<T>(l: Link<T>, n: nat)
    requires Inv(l) && l.h <= n < |l.log| && n < l.f + MAX
    ensures var m := Step(l, Resend(Image(n)));
            Inv(m) && m == l.(wire := l.wire + [Data(n, l.log[n])])
  {
    KeptExactly(l.sender, l.log, l.f, l.s, n);
    Ahead(l.f, n - l.f, Image(n));
    assert l.sender.firstUnacked == Image(l.f);
    hide SenderAt, ReceiverAt;
    assert Step(l, Resend(Image(n))) == l.(wire := l.wire + [Data(n, l.log[n])]);
  }

  lemma ResendArrives<T>(l: Link<T>, n: nat)
    requires Inv(l) && Calm(l) && l.h <= n < l.h + DEPTH && n < l.a
    ensures var m := Through(l, Resend(Image(n)));
            && Inv(m) && SameCounters(l, m) && Has(m, n) && (forall k :: Has(l, k) ==> Has(m, k))
            && l.wire <= m.wire
  {
    ResendSends(l, n);
    var (m, p) := (Step(l, Resend(Image(n))), Data(n, l.log[n]));
    RecentDataRead(m, n);
    ArriveKeepsIff(m, p);
    CopyIsKept(m, n);
    hide Inv, Received;
    assert Through(l, Resend(Image(n))) == Received(m, p);
  }

  lemma CopyIsKept<T>(l: Link<T>, n: nat)
    requires Inv(l) && l.h <= n < l.h + DEPTH && n < l.a
    ensures var m := Received(l, Data(n, l.log[n]));
            SameCounters(l, m) && Has(m, n) && (forall k :: Has(l, k) ==> Has(m, k)) && m.wire == l.wire
  {
    WindowExactly(l.receiver, l.log, l.h, l.a, n);
  }

  /** Every announced message of the window is there once the bitmap has been answered. */
  lemma {:induction false} RepairFillsWindow<T>(l: Link<T>, k: nat)
    requires Inv(l) && Calm(l) && k <= 16
    ensures var m := Repaired(l, k);
            && Inv(m) && SameCounters(l, m) && l.wire <= m.wire
            && HasAll(m, l.h, Min(l.h + k, l.a))
            && forall n :: Has(l, n) ==> Has(m, n)
  {
    hide Inv, Through, Missing, Has;
    if k > 0 {
      RepairFillsWindow(l, k - 1);
      MissingAt(l, k - 1);
      if Missing(l.receiver, k - 1) {
        ResendArrives(Repaired(l, k - 1), l.h + k - 1);
      }
    }
  }

  lemma AnswerSends<T>(l: Link<T>)
    requires Inv(l)
    ensures Inv(Step(l, Answer)) && Step(l, Answer) == l.(wire := l.wire + [Acknack(l.h)])
  {
    StepKeepsInvIff(l, Answer);
  }

  lemma AckArrives<T>(l: Link<T>)
    requires Inv(l) && Calm(l) && Acknack(l.h) in l.wire
    ensures var m := Step(l, Arrive(Acknack(l.h)));
            Inv(m) && SameCounters(l.(f := AckedTo(l.f, l.s, l.h)), m) && m.receiver == l.receiver
  {
    CalmAckRead(l);
    StepKeepsInvIff(l, Arrive(Acknack(l.h)));
  }

  /** After the answer the window is full of what was announced, and the sender has taken note of what was handled. */
  lemma AnswerRepairs<T>(l: Link<T>)
    requires Inv(l) && Calm(l)
    ensures var m := Answered(l);
            && Inv(m) && SameCounters(l.(f := AckedTo(l.f, l.s, l.h)), m)
            && HasAll(m, l.h, Min(l.h + DEPTH, l.a))
  {
    hide Inv, Step, Repaired, AckedTo;
    AnswerSends(l);
    var asked := Step(l, Answer);
    assert asked.wire[|l.wire|] == Acknack(l.h);
    RepairFillsWindow(asked, 16);
    var m := Repaired(asked, 16);
    assert m.wire[|l.wire|] == Acknack(l.h);
    AckArrives(m);
    forall n | l.h <= n < Min(l.h + DEPTH, l.a)
      ensures Has(Answered(l), n)
    {
      assert Has(m, n);
    }
  }

  lemma PopDelivers<T>(l: Link<T>, to: nat)
    requires Inv(l) && l.h < to <= l.h + DEPTH && HasAll(l, l.h, to)
    ensures var m := Step(l, Pop);
            Inv(m) && SameCounters(l.(h := l.h + 1), m) && HasAll(m, m.h, to)
  {
    PopKeeps(l);
    PopKeepsReceiver(l.receiver, l.log, l.h, l.a);
    assert Has(l, l.h);
    var m := Step(l, Pop);
    forall n | m.h <= n < to
      ensures Has(m, n)
    {
      assert Has(l, n);
      LessAbstractsCounters(l.h, n);
    }
  }

  lemma PopAtEnd<T>(l: Link<T>)
    requires Inv(l) && l.h == l.a
    ensures Step(l, Pop) == l
  {
    PopKeepsReceiver(l.receiver, l.log, l.h, l.a);
  }

  lemma {:induction false} PopsDeliver<T>(l: Link<T>, n: nat)
    requires Inv(l) && n <= DEPTH && l.h <= l.a && HasAll(l, l.h, Min(l.h + n, l.a))
    ensures var m := PoppedTimes(l, n);
            Inv(m) && SameCounters(l.(h := Min(l.h + n, l.a)), m)
    decreases n
  {
    hide Inv, Step, HasAll;
    if n > 0 {
      if l.h < l.a {
        PopDelivers(l, Min(l.h + n, l.a));
      } else {
        PopAtEnd(l);
      }
      PopsDeliver(Step(l, Pop), n - 1);
    }
  }

  /** A round without losses delivers everything pushed, or a whole window of it, and acknowledges what was handled
      before. */
  lemma RoundRecoversWindow<T>(l: Link<T>)
    requires Inv(l) && Calm(l)
    ensures var m := Round(l);
            && Inv(m) && Calm(m)
            && SameCounters(l.(f := AckedTo(l.f, l.s, l.h), h := Min(l.h + DEPTH, |l.log|), a := |l.log|), m)
  {
    InvDelivers(l);
    BeatArrives(l);
    var beat := Through(l, Beat);
    hide Inv, Through, HasAll, Has, Answered, PoppedTimes;
    AnswerRepairs(beat);
    PopsDeliver(Answered(beat), 16);
  }

  ghost function Rounds<T>(l: Link<T>, n: nat): Link<T>
    decreases n
  {
    if n == 0 then l else Rounds(Round(l), n - 1)
  }

  /** From every calm state of the protocol, enough rounds without losses deliver everything that was pushed. */
  lemma {:induction false} RoundsDeliverAll<T>(l: Link<T>, n: nat)
    requires Inv(l) && Calm(l) && (n - 1) * DEPTH < |l.log| - l.h <= n * DEPTH
    ensures var m := Rounds(l, n);
            Inv(m) && Calm(m) && m.log == l.log && m.delivered == l.log && m.s == l.s && m.h == |l.log|
    decreases n
  {
    hide Inv, Round, Calm;
    InvDelivers(l);
    if n > 0 {
      RoundRecoversWindow(l);
      RoundsDeliverAll(Round(l), n - 1);
    } else {
      assert l.log[..l.h] == l.log;
    }
  }

  /** Once everything pushed was sent and delivered, one more round opens the whole window again. */
  lemma RoundOpensWindow<T>(l: Link<T>)
    requires Inv(l) && Calm(l) && l.s == l.h == |l.log|
    ensures var m := Round(l);
            Inv(m) && m.f == |m.log| && m.log == l.log && WindowOpen(m.sender)
  {
    InvDelivers(l);
    RoundRecoversWindow(l);
    WindowOpenExactly(Round(l).sender, l.log, Round(l).f, l.s);
  }

  /** A link at rest with something pushed can move on if and only if at most 32767 messages were pushed at once. */
  lemma QuietLinkMovesIff<T>(l: Link<T>)
    requires Inv(l) && l.f == l.s == l.h == l.a < |l.log|
    ensures HasNext(l.sender) <==> Calm(l)
    ensures Announced(l.receiver, Image(l.f), Image(|l.log| - 1)) != l.receiver <==> Calm(l)
    ensures forall k :: 0 <= k < 16 ==> !Missing(l.receiver, k)
  {
    NextIsThere(l.sender, l.log, l.f, l.s);
    ArithmeticCommutes(l.h - 1, 1);
    LessModulo(l.h, l.f);
    LessModulo(l.a - 1, |l.log| - 1);
    SameImage(l.a - 1, |l.log| - 1);
    LooksAheadWithin(|l.log| - l.a);
    forall k | 0 <= k < 16
      ensures !Missing(l.receiver, k)
    {
      MissingExactly(l.receiver, l.log, l.h, l.a, k);
    }
  }

  /** An acknowledgement changes the sender if and only if its two tests say so, whatever the age of its number. */
  lemma AcknowledgementIgnoredIff<T>(l: Link<T>, first: nat)
    requires Inv(l)
    ensures Acked(l.sender, Image(first)) == l.sender <==> !AckMoves(l.f, l.s, first)
    ensures Received(l, Acknack(first)) == l <==> !AckMoves(l.f, l.s, first) && !(l.f < first <= l.s)
  {
    AckDecision(l.sender, l.log, l.f, l.s, first);
    DroppedReaches(l.sender, Image(first));
    SameImage(l.f, first);
  }
}
