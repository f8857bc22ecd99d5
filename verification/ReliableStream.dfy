/**
 * Reliable streams (include/uxr/agent/client/session/stream/OutputStream.hpp and InputStream.hpp): sequence numbers,
 * retransmission on request, and delivery in order, over sixteen-bit serial numbers.
 */
module ReliableStreams {

  import opened Options
  import opened SeqNums
  import opened Words

  const DEPTH := 16

  datatype Output<T> = Output(messages: map<uint16, T>, lastUnacked: uint16, lastSent: uint16, firstUnacked: uint16)

  datatype Input<T> = Input(messages: map<uint16, T>, lastHandled: uint16, lastAnnounced: uint16)

  // ---------- the sender ----------

  /** The condition that `push_submessage` waits for. */
  predicate WindowOpen<T>(o: Output<T>) {
    Less(o.lastUnacked, AddSeq(o.firstUnacked, DEPTH - 1))
  }

  function Pushed<T>(o: Output<T>, message: T): Output<T> {
    var n := AddInt(o.lastUnacked, 1);
    o.(lastUnacked := n, messages := if n in o.messages then o.messages else o.messages[n := message])
  }

  predicate HasNext<T>(o: Output<T>) {
    Less(o.lastSent, o.lastUnacked)
  }

  function Dropped<T>(o: Output<T>, first: uint16): Output<T>
    decreases Distance(o.firstUnacked, first)
  {
    if Greater(first, o.firstUnacked) then
      LessIsShortDistance(o.firstUnacked, first);
      Dropped(o.(messages := o.messages - {o.firstUnacked}, firstUnacked := AddInt(o.firstUnacked, 1)), first)
    else o
  }

  lemma OneDropCloser(from: uint16, first: uint16)
    requires Greater(first, from)
    ensures Distance(AddInt(from, 1), first) < Distance(from, first)
  {
    LessIsShortDistance(from, first);
  }

  function Acked<T>(o: Output<T>, first: uint16): Output<T> {
    if LessEq(first, AddInt(o.lastSent, 1)) then Dropped(o, first) else o
  }

  class ReliableOutputStream<T> {
    var messages: map<uint16, T>
    var lastUnacked: uint16
    var lastSent: uint16
    var firstUnacked: uint16

    ghost function View(): Output<T>
      reads this
    {
      Output(messages, lastUnacked, lastSent, firstUnacked)
    }

    constructor ()
      ensures View() == Output(map[], 0xFFFF, 0xFFFF, 0)
    {
      messages, lastUnacked, lastSent, firstUnacked := map[], 0xFFFF, 0xFFFF, 0;
    }

    method Reset()
      modifies this
      ensures View() == Output(map[], 0xFFFF, 0xFFFF, 0)
    {
      messages, lastUnacked, lastSent, firstUnacked := map[], 0xFFFF, 0xFFFF, 0;
    }

    /** The last step of a push, for one message or one fragment. */
    method PushMessage(message: T)
      modifies this
      ensures View() == Pushed(old(View()), message)
    {
      lastUnacked := AddInt(lastUnacked, 1);
      if lastUnacked !in messages {
        messages := messages[lastUnacked := message];
      }
    }

    /** The next message that was never sent; looking it up must not fail. */
    method GetNextMessage() returns (message: Option<T>)
      requires HasNext(View()) ==> AddInt(lastSent, 1) in messages
      modifies this
      ensures message.Some? == HasNext(old(View()))
      ensures message.Some? ==> View() == old(View()).(lastSent := AddInt(old(lastSent), 1))
      ensures message.Some? ==> message.value == old(messages)[lastSent]
      ensures message.None? ==> View() == old(View())
    {
      message := None;
      if Less(lastSent, lastUnacked) {
        lastSent := AddInt(lastSent, 1);
        message := Some(messages[lastSent]);
      }
    }

    method GetMessage(n: uint16) returns (message: Option<T>)
      ensures message == if n in messages then Some(messages[n]) else None
    {
      message := if n in messages then Some(messages[n]) else None;
    }

    method UpdateFromAcknack(first: uint16)
      modifies this
      ensures View() == Acked(old(View()), first)
    {
      hide LessEq, Greater, AddInt, Distance;
      if LessEq(first, AddInt(lastSent, 1)) {
        while Greater(first, firstUnacked)
          invariant Dropped(View(), first) == Dropped(old(View()), first)
          decreases Distance(firstUnacked, first)
        {
          OneDropCloser(firstUnacked, first);
          messages := messages - {firstUnacked};
          firstUnacked := AddInt(firstUnacked, 1);
        }
      }
    }
  }

  // ---------- the receiver ----------

  predicate InWindow<T>(i: Input<T>, n: uint16) {
    Greater(n, i.lastHandled) && LessEq(n, AddSeq(i.lastHandled, DEPTH))
  }

  /** `push_message`: a message is kept if it is in the window and not kept already. */
  function Kept<T>(i: Input<T>, n: uint16, message: T): Input<T> {
    if !InWindow(i, n) then i
    else
      var messages := if n in i.messages then i.messages else i.messages[n := message];
      Input(messages, i.lastHandled, if Greater(n, i.lastAnnounced) then n else i.lastAnnounced)
  }

  function Popped<T>(i: Input<T>): Input<T> {
    var n := AddInt(i.lastHandled, 1);
    if n in i.messages then Input(i.messages - {n}, n, i.lastAnnounced) else i
  }

  function Announced<T>(i: Input<T>, first: uint16, last: uint16): Input<T> {
    var handled := if Less(AddInt(i.lastHandled, 1), first) then Sub(first, 1) else i.lastHandled;
    Input(i.messages, handled, if Less(i.lastAnnounced, last) then last else i.lastAnnounced)
  }

  /** Whether the message `k` places behind the last one handled was announced and is not there. */
  predicate Missing<T>(i: Input<T>, k: nat)
    requires k < 16
  {
    Less(AddSeq(i.lastHandled, k), i.lastAnnounced) && AddSeq(i.lastHandled, k + 1) !in i.messages
  }

  class ReliableInputStream<T> {
    var messages: map<uint16, T>
    var lastHandled: uint16
    var lastAnnounced: uint16

    ghost function View(): Input<T>
      reads this
    {
      Input(messages, lastHandled, lastAnnounced)
    }

    constructor ()
      ensures View() == Input(map[], 0xFFFF, 0xFFFF)
    {
      messages, lastHandled, lastAnnounced := map[], 0xFFFF, 0xFFFF;
    }

    method Reset()
      modifies this
      ensures View() == Input(map[], 0xFFFF, 0xFFFF)
    {
      messages, lastHandled, lastAnnounced := map[], 0xFFFF, 0xFFFF;
    }

    method PushMessage(n: uint16, message: T) returns (rv: bool)
      modifies this
      ensures View() == Kept(old(View()), n, message)
      ensures rv <==> InWindow(old(View()), n) && (n !in old(messages) || Greater(n, old(lastAnnounced)))
    {
      rv := false;
      if Greater(n, lastHandled) && LessEq(n, AddSeq(lastHandled, DEPTH)) {
        if Greater(n, lastAnnounced) {
          lastAnnounced := n;
          if n !in messages {
            messages := messages[n := message];
          }
          rv := true;
        } else if n !in messages {
          messages := messages[n := message];
          rv := true;
        }
      }
    }

    method PopMessage() returns (message: Option<T>)
      modifies this
      ensures View() == Popped(old(View()))
      ensures var n := AddInt(old(lastHandled), 1);
              message == if n in old(messages) then Some(old(messages)[n]) else None
    {
      message := None;
      if AddInt(lastHandled, 1) in messages {
        lastHandled := AddInt(lastHandled, 1);
        message := Some(messages[lastHandled]);
        messages := messages - {lastHandled};
      }
    }

    method UpdateFromHeartbeat(first: uint16, last: uint16)
      modifies this
      ensures View() == Announced(old(View()), first, last)
    {
      if Less(AddInt(lastHandled, 1), first) {
        lastHandled := Sub(first, 1);
      }
      if Less(lastAnnounced, last) {
        lastAnnounced := last;
      }
    }

    /** The bitmap has the first eight messages of the window in its second byte, the other eight in its first. */
    method FillAcknack() returns (first: uint16, high: byte, low: byte)
      ensures first == AddInt(lastHandled, 1)
      ensures Marks(View(), low, 8, 0) && Marks(View(), high, 8, 8)
    {
      hide Bit, Pow2, Less;
      first := AddInt(lastHandled, 1);
      EightBits();
      var h: nat, l: nat := 0, 0;
      for k := 0 to 8
        invariant h < Pow2(k) && l < Pow2(k)
        invariant Marks(View(), l, k, 0) && Marks(View(), h, k, 8)
      {
        var missing := Less(AddSeq(lastHandled, k), lastAnnounced) && AddSeq(lastHandled, k + 1) !in messages;
        var later := Less(AddSeq(lastHandled, k + 8), lastAnnounced) && AddSeq(lastHandled, k + 9) !in messages;
        MarksOneMore(View(), l, k, 0);
        MarksOneMore(View(), h, k, 8);
        l := if missing then l + Pow2(k) else l;
        h := if later then h + Pow2(k) else h;
      }
      high, low := h, l;
    }
  }

  /** The first `k` bits of a byte mark the missing messages from `offset` on. */
  ghost predicate Marks<T>(i: Input<T>, n: nat, k: nat, offset: nat)
    requires k + offset <= 16
  {
    forall j :: 0 <= j < k ==> (Bit(n, j) <==> Missing(i, j + offset))
  }

  lemma MarksOneMore<T>(i: Input<T>, n: nat, k: nat, offset: nat)
    requires k + offset < 16 && n < Pow2(k) && Marks(i, n, k, offset)
    ensures var m := if Missing(i, k + offset) then n + Pow2(k) else n;
            m < Pow2(k + 1) && Marks(i, m, k + 1, offset)
  {
    hide Bit, Missing, Pow2;
    var added := Missing(i, k + offset);
    AddedBits(n, k, added);
    var m := if added then n + Pow2(k) else n;
    forall j | 0 <= j < k + 1
      ensures Bit(m, j) <==> Missing(i, j + offset)
    {
      assert j < k ==> Bit(m, j) == Bit(n, j);
    }
  }

  // ---------- bits ----------

  function Pow2(k: nat): nat {
    if k == 0 then 1 else 2 * Pow2(k - 1)
  }

  /** Bit `k` of a number, which the masks of the source select. */
  predicate Bit(n: nat, k: nat) {
    if k == 0 then n % 2 == 1 else Bit(n / 2, k - 1)
  }

  lemma EightBits()
    ensures Pow2(0) == 1 && Pow2(8) == 0x100
  {
    assert Pow2(4) == 16;
  }

  lemma {:induction false} HighBitsClear(n: nat, k: nat)
    requires n < Pow2(k)
    ensures !Bit(n, k)
  {
    if k > 0 {
      HighBitsClear(n / 2, k - 1);
    }
  }

  /** Adding the next power of two sets that bit and no other. */
  lemma {:induction false} SetsOneBit(n: nat, k: nat, j: nat)
    requires n < Pow2(k) && j <= k
    ensures Bit(n + Pow2(k), j) <==> j == k || Bit(n, j)
  {
    if k > 0 {
      assert (n + Pow2(k)) / 2 == n / 2 + Pow2(k - 1) && (n + Pow2(k)) % 2 == n % 2;
      if j > 0 {
        SetsOneBit(n / 2, k - 1, j - 1);
      }
    }
  }

  lemma AddedBits(n: nat, k: nat, added: bool)
    requires n < Pow2(k)
    ensures var m := if added then n + Pow2(k) else n;
            m < Pow2(k + 1) && (forall j :: 0 <= j < k ==> Bit(m, j) == Bit(n, j)) && Bit(m, k) == added
  {
    HighBitsClear(n, k);
    if added {
      forall j | 0 <= j <= k
        ensures Bit(n + Pow2(k), j) <==> j == k || Bit(n, j)
      {
        SetsOneBit(n, k, j);
      }
    }
  }
}
