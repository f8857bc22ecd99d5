/** Submessages through a reliable stream: serialized, fragmented, lost and resent, reassembled and parsed. */
module EndToEnd {

  import opened Arithmetic
  import opened Words
  import opened SeqNums
  import opened Cdrs
  import opened Messages
  import opened WireFormats
  import opened Payloads
  import opened Fragments
  import opened ReliableStreams
  import L = ReliableLinks
  import R = LinkRuns

  /** The header of message `n` of a stream: its sequence number is the low sixteen bits. */
  function StreamHeader(base: MessageHeader, n: nat): seq<byte> {
    Encode(HeaderItems(base.(sequence := Image(n))), 0)
  }

  /** A submessage as `push_submessage` serializes it before cutting it up. */
  function Serialized(s: Submessage): seq<byte> {
    Encode(SubmessageItems(s), 0)
  }

  function AllSerialized(subs: seq<Submessage>): seq<seq<byte>> {
    seq(|subs|, i requires 0 <= i < |subs| => Serialized(subs[i]))
  }

  /** Header and serialized submessage form the message that would have been sent in one piece. */
  lemma ReassembledIsMessage(base: MessageHeader, n: nat, s: Submessage)
    ensures StreamHeader(base, n) + Serialized(s) == Message(base.(sequence := Image(n)), [s])
  {
    hide Encode, HeaderItems, SubmessageItems;
    var h := base.(sequence := Image(n));
    MessageOfOne(h, s);
    EncodeFromMultipleOfFour(SubmessageItems(s), |Encode(HeaderItems(h), 0)|, 0);
  }

  function Headers(base: MessageHeader): nat -> seq<byte> {
    n => StreamHeader(base, n)
  }

  // ---------- messages as bytes ----------

  function FragmentSubheader(bytes: seq<byte>, last: bool): Subheader {
    var flags := if last then FLAG_LITTLE_ENDIANNESS + FLAG_LAST_FRAGMENT else FLAG_LITTLE_ENDIANNESS;
    Subheader(FRAGMENT, flags, |bytes| % 0x1_0000)
  }

  function BodyBytes(b: Body): seq<byte> {
    match b
    case Whole(bytes) => bytes
    case Piece(header, bytes, last) => FramedRaw(header, FragmentSubheader(bytes, last), bytes)
  }

  /** The bytes of a fragment message behind its header: id 13, the flags, the length and the bytes. */
  lemma FragmentOnWire(h: MessageHeader, bytes: seq<byte>, last: bool)
    requires |bytes| <= 0xFFFF
    ensures BodyBytes(Piece(WireHeader(h), bytes, last)) ==
            WireHeader(h) + ([13, if last then 3 else 1, |bytes| % 0x100, |bytes| / 0x100] + bytes)
  {
    hide FramedRaw, WireHeader;
    HeaderIsAligned(h);
    FragmentSubheaderOnWire(bytes, last);
    hide WireSubheader, FragmentSubheader;
    FramedRawOnWire(WireHeader(h), FragmentSubheader(bytes, last), bytes);
  }

  lemma FragmentSubheaderOnWire(bytes: seq<byte>, last: bool)
    requires |bytes| <= 0xFFFF
    ensures var sub := FragmentSubheader(bytes, last);
            WireSubheader(sub.id, sub.flags, sub.length) ==
              [13, if last then 3 else 1, |bytes| % 0x100, |bytes| / 0x100]
  {
  }

  /** The messages of a stream as they travel. */
  function OnWire(bodies: seq<Body>): seq<seq<byte>> {
    seq(|bodies|, i requires 0 <= i < |bodies| => BodyBytes(bodies[i]))
  }

  function AllDecoded(messages: seq<seq<byte>>): seq<Body> {
    seq(|messages|, i requires 0 <= i < |messages| => Decoded(messages[i]))
  }

  /** The receiver gets from the bytes what the sender put into them. */
  ghost predicate Sound(b: Body) {
    Decoded(BodyBytes(b)) == b
  }

  lemma HeaderFirst(h: MessageHeader, bytes: seq<byte>)
    requires Encode(HeaderItems(h), 0) <= bytes
    ensures var n := |Encode(HeaderItems(h), 0)|;
            && GetHeader(bytes, 0) == Got(Received(h), n)
            && n == (if h.session < 128 then 8 else 4)
            && RawHeader(bytes, h.session) == Encode(HeaderItems(h), 0)
  {
    hide Encode, HeaderItems, GetHeader;
    HeaderBytes(h);
    var n := |Encode(HeaderItems(h), 0)|;
    assert bytes[0..n] == bytes[..n];
    GetsHeader(bytes, h);
  }

  /** A fragment comes back with its header, its bytes and its place. */
  lemma PieceIsSound(h: MessageHeader, bytes: seq<byte>, last: bool)
    requires |bytes| <= 0xFFFF
    ensures Sound(Piece(Encode(HeaderItems(h), 0), bytes, last))
  {
    hide Encode, EncodeItem, HeaderItems, SubheaderItems, GetHeader, NextSubheader, Holds;
    var (header, sub) := (Encode(HeaderItems(h), 0), FragmentSubheader(bytes, last));
    var message := FramedRaw(header, sub, bytes);
    HeaderFirst(h, message);
    hide FramedItems;
    NextFramed(message, header, sub, [Raw(bytes)]);
    var at := |header| + 4;
    EncodeOne(Raw(bytes), at);
    GetsRaw(message, at, bytes);
    assert Received(h).session == h.session;
  }

  /** A message with one submessage is not taken for a fragment. */
  lemma WholeIsSound(h: MessageHeader, s: Submessage)
    ensures Sound(Whole(Message(h, [s])))
  {
    hide Encode, EncodeItem, HeaderItems, SubheaderItems, PayloadItems, GetHeader, NextSubheader, Holds;
    hide Message;
    var header := Encode(HeaderItems(h), 0);
    MessageOfOne(h, s);
    HeaderFirst(h, Message(h, [s]));
    hide FramedItems;
    NextFramed(Message(h, [s]), header, SubheaderOf(s), PayloadItems(s.payload));
  }

  lemma {:induction false} PiecesAreSound(base: MessageHeader, n: nat, data: seq<byte>, room: nat, b: Body)
    requires room > 0 && |data| <= 0xFFFF && b in Pieces(Headers(base), n, Split(data, room))
    ensures Sound(b)
    decreases |data|
  {
    hide Sound, Encode, HeaderItems;
    var (fragments, h) := (Split(data, room), base.(sequence := Image(n)));
    var first := Piece(Headers(base)(n), fragments[0].bytes, fragments[0].last);
    assert fragments == [fragments[0]] + fragments[1..];
    PiecesCons(Headers(base), n, fragments[0], fragments[1..]);
    assert fragments[1..] == if |data| > room then Split(data[room..], room) else [];
    if b == first {
      PieceIsSound(h, fragments[0].bytes, fragments[0].last);
    } else if |data| > room {
      PiecesAreSound(base, n + 1, data[room..], room, b);
    }
  }

  /** The submessage fits in one message, or sixteen bits can count its bytes and its fragments have room for one. */
  predicate Sendable(base: MessageHeader, s: Submessage, mtu: uint16) {
    || |StreamHeader(base, 0)| + |Serialized(s)| <= mtu
    || (|Serialized(s)| <= 0xFFFF && |StreamHeader(base, 0)| + SUBHEADER_SIZE < mtu)
  }

  ghost predicate AllSendable(base: MessageHeader, subs: seq<Submessage>, mtu: uint16) {
    forall s :: s in subs ==> Sendable(base, s, mtu)
  }

  lemma HeaderLength(base: MessageHeader, n: nat)
    ensures |StreamHeader(base, n)| == |StreamHeader(base, 0)| == if base.session < 128 then 8 else 4
  {
    hide Encode, HeaderItems;
    HeaderBytes(base.(sequence := Image(n)));
    HeaderBytes(base.(sequence := Image(0)));
  }

  lemma SendablePasses(base: MessageHeader, n: nat, s: Submessage, mtu: uint16)
    requires Sendable(base, s, mtu)
    ensures Headers(base)(n) != [] && Passes(Headers(base), n, Serialized(s), mtu) && |Serialized(s)| <= 0xFFFF
  {
    hide Serialized, StreamHeader;
    HeaderLength(base, n);
  }

  lemma SendableFits(base: MessageHeader, subs: seq<Submessage>, mtu: uint16)
    requires AllSendable(base, subs, mtu)
    ensures Fits(Headers(base), AllSerialized(subs), mtu)
  {
    hide Serialized, StreamHeader, Passes, Sendable;
    forall n: nat
      ensures Headers(base)(n) != []
    {
      HeaderLength(base, n);
    }
    forall n: nat, d | d in AllSerialized(subs)
      ensures Passes(Headers(base), n, d, mtu)
    {
      var i :| 0 <= i < |subs| && d == Serialized(subs[i]);
      SendablePasses(base, n, subs[i], mtu);
    }
  }

  lemma {:induction false} StreamIsSound(base: MessageHeader, n: nat, subs: seq<Submessage>, mtu: uint16, b: Body)
    requires AllSendable(base, subs, mtu) && b in Stream(Headers(base), n, AllSerialized(subs), mtu)
    ensures Sound(b)
    decreases |subs|
  {
    hide Sound, Encode, StreamHeader, Serialized, Message, Pieces, Split, Decoded, Sendable;
    var data := AllSerialized(subs);
    var first := Bodies(Headers(base), n, data[0], mtu);
    assert data[1..] == AllSerialized(subs[1..]);
    SendablePasses(base, n, subs[0], mtu);
    if b !in first {
      StreamIsSound(base, n + |first|, subs[1..], mtu, b);
    } else if !Cut(Headers(base), n, data[0], mtu) {
      ReassembledIsMessage(base, n, subs[0]);
      WholeIsSound(base.(sequence := Image(n)), subs[0]);
    } else {
      PiecesAreSound(base, n, data[0], mtu - |Headers(base)(n)| - SUBHEADER_SIZE, b);
    }
  }

  lemma SoundBodiesComeBack(bodies: seq<Body>)
    requires forall b :: b in bodies ==> Sound(b)
    ensures AllDecoded(OnWire(bodies)) == bodies
  {
    hide Decoded, BodyBytes;
    forall i | 0 <= i < |bodies|
      ensures AllDecoded(OnWire(bodies))[i] == bodies[i]
    {
      assert Sound(bodies[i]);
    }
  }

  // ---------- the whole way ----------

  /** What `process_input_message` reads from a message. */
  function Submessages(message: seq<byte>): seq<Parsed> {
    match GetHeader(message, 0)
    case Got(_, pos) => ParseFrom(message, pos).0
    case _ => []
  }

  lemma MessageParses(base: MessageHeader, n: nat, s: Submessage)
    requires Legible(s)
    ensures Submessages(StreamHeader(base, n) + Serialized(s)) == [Arrived(s)]
  {
    hide Encode, StreamHeader, Serialized, Message, GetHeader, ParseFrom, Arrived;
    ReassembledIsMessage(base, n, s);
    MessageRoundTrip(base.(sequence := Image(n)), [s]);
    assert Expected([s]) == [Arrived(s)];
  }

  lemma {:induction false} WantedParses(base: MessageHeader, n: nat, subs: seq<Submessage>, mtu: uint16, k: nat)
    requires k < |subs| && Legible(subs[k])
    ensures var wanted := Wanted(Headers(base), n, AllSerialized(subs), mtu);
            |wanted| == |subs| && Submessages(wanted[k]) == [Arrived(subs[k])]
    decreases |subs|
  {
    hide Encode, StreamHeader, Serialized, Submessages, Arrived, Bodies;
    var data := AllSerialized(subs);
    var first := Bodies(Headers(base), n, data[0], mtu);
    assert data[1..] == AllSerialized(subs[1..]);
    if k == 0 {
      MessageParses(base, n, subs[0]);
      WantedLength(Headers(base), n, data, mtu);
    } else {
      WantedParses(base, n + |first|, subs[1..], mtu, k - 1);
    }
  }

  /** The messages of the stream that carry some submessages, as bytes. */
  ghost function Traffic(base: MessageHeader, subs: seq<Submessage>, mtu: uint16): seq<seq<byte>> {
    OnWire(Stream(Headers(base), 0, AllSerialized(subs), mtu))
  }

  /** A submessage that is pushed next adds its messages to the traffic, under the next numbers. */
  lemma TrafficAppend(base: MessageHeader, subs: seq<Submessage>, s: Submessage, mtu: uint16)
    ensures var traffic := Traffic(base, subs, mtu);
            Traffic(base, subs + [s], mtu) == traffic + OnWire(Bodies(Headers(base), |traffic|, Serialized(s), mtu))
  {
    hide Stream, Bodies, Serialized, StreamHeader, OnWire, AllSerialized, Headers;
    var (headers, data) := (Headers(base), AllSerialized(subs));
    var stream := Stream(headers, 0, data, mtu);
    SerializedOneMore(subs, s);
    OnWireLength(stream);
    StreamAppend(headers, 0, data, Serialized(s), mtu);
    OnWireAppend(stream, Bodies(headers, |stream|, Serialized(s), mtu));
  }

  lemma SerializedOneMore(subs: seq<Submessage>, s: Submessage)
    ensures AllSerialized(subs + [s]) == AllSerialized(subs) + [Serialized(s)]
  {
    hide Serialized;
  }

  lemma OnWireLength(bodies: seq<Body>)
    ensures |OnWire(bodies)| == |bodies|
  {
  }

  lemma OnWireAppend(a: seq<Body>, b: seq<Body>)
    ensures OnWire(a + b) == OnWire(a) + OnWire(b)
  {
    hide BodyBytes;
  }

  lemma HeadersSameLengths(base: MessageHeader)
    ensures SameLengths(Headers(base))
  {
    hide StreamHeader;
    forall n: nat, m: nat
      ensures |Headers(base)(n)| == |Headers(base)(m)|
    {
      HeaderLength(base, n);
      HeaderLength(base, m);
    }
  }

  /** A first part of the traffic decodes to a first part of the stream. */
  lemma TrafficDecodes(messages: seq<seq<byte>>, base: MessageHeader, subs: seq<Submessage>, mtu: uint16)
    requires AllSendable(base, subs, mtu) && messages <= Traffic(base, subs, mtu)
    ensures var stream := Stream(Headers(base), 0, AllSerialized(subs), mtu);
            && |messages| <= |stream|
            && AllDecoded(messages) == stream[..|messages|]
  {
    hide Sound, Decoded, BodyBytes, Stream, Headers, AllSendable;
    var stream := Stream(Headers(base), 0, AllSerialized(subs), mtu);
    var bodies := stream[..|messages|];
    forall b | b in bodies
      ensures Sound(b)
    {
      StreamIsSound(base, 0, subs, mtu, b);
    }
    assert messages == OnWire(bodies);
    SoundBodiesComeBack(bodies);
  }

  /**
   * Whatever the network loses, repeats or reorders, the submessages that the receiver parses are the ones that were
   * pushed: the first of them, in order, each once, with their ids, flags, lengths and payloads.
   */
  lemma SubmessagesArriveInOrder(l: L.Link<seq<byte>>, base: MessageHeader, subs: seq<Submessage>, mtu: uint16)
    requires L.Inv(l) && AllSendable(base, subs, mtu) && forall s :: s in subs ==> Legible(s)
    requires l.log <= Traffic(base, subs, mtu)
    ensures var handed := Handled([], AllDecoded(l.delivered)).1;
            && |handed| <= |subs|
            && (forall k :: 0 <= k < |handed| ==> Submessages(handed[k]) == [Arrived(subs[k])])
            && (l.delivered == Traffic(base, subs, mtu) ==> |handed| == |subs|)
  {
    hide L.Inv, Handled, Stream, Wanted, Submessages, Arrived, Headers, AllSendable, AllDecoded, OnWire;
    L.InvDelivers(l);
    ArrivedInOrder(l.delivered, base, subs, mtu);
  }

  lemma ArrivedInOrder(messages: seq<seq<byte>>, base: MessageHeader, subs: seq<Submessage>, mtu: uint16)
    requires AllSendable(base, subs, mtu) && messages <= Traffic(base, subs, mtu)
    requires forall s :: s in subs ==> Legible(s)
    ensures var handed := Handled([], AllDecoded(messages)).1;
            && |handed| <= |subs|
            && (forall k :: 0 <= k < |handed| ==> Submessages(handed[k]) == [Arrived(subs[k])])
            && (messages == Traffic(base, subs, mtu) ==> |handed| == |subs|)
  {
    hide Handled, Stream, Wanted, Fits, Submessages, Arrived, Headers, AllSendable, AllDecoded, Legible;
    var data := AllSerialized(subs);
    SendableFits(base, subs, mtu);
    var stream := Stream(Headers(base), 0, data, mtu);
    TrafficDecodes(messages, base, subs, mtu);
    StreamHandsOnSubmessages(stream[..|messages|], Headers(base), data, mtu);
    WantedLength(Headers(base), 0, data, mtu);
    assert |messages| == |stream| ==> stream[..|messages|] == stream;
    var handed := Handled([], AllDecoded(messages)).1;
    forall k | 0 <= k < |handed|
      ensures Submessages(handed[k]) == [Arrived(subs[k])]
    {
      WantedParses(base, 0, subs, mtu, k);
    }
  }

  // ---------- pushing a submessage ----------

  /** The message of one fragment, built with exactly its size. */
  method BuildFragment(h: MessageHeader, bytes: seq<byte>, last: bool) returns (message: seq<byte>)
    requires |bytes| <= 0xFFFF
    ensures message == BodyBytes(Piece(Encode(HeaderItems(h), 0), bytes, last))
  {
    hide Encode, HeaderItems;
    var size := HeaderSize(h, 0);
    var m := new OutputMessage(h, size + SUBHEADER_SIZE + |bytes|);
    FragmentFills(h, FragmentSubheader(bytes, last), bytes);
    var ok := m.AppendFragment(FragmentSubheader(bytes, last), bytes);
    message := m.buf[..];
  }

  lemma FragmentFills(h: MessageHeader, sub: Subheader, bytes: seq<byte>)
    ensures var header := Encode(HeaderItems(h), 0);
            |FramedRaw(header, sub, bytes)| == |header| + SUBHEADER_SIZE + |bytes|
  {
    hide Encode, EncodeItem, HeaderItems, SubheaderItems;
    var n := |Encode(HeaderItems(h), 0)|;
    HeaderBytes(h);
    EncodeAppend(SubheaderItems(sub), [Raw(bytes)], n);
    EncodedSubheader(sub, n);
    EncodeOne(Raw(bytes), n + 4);
    RawSize(bytes, n + 4);
  }

  lemma OnWireOneMore(bodies: seq<Body>, b: Body)
    ensures OnWire(bodies + [b]) == OnWire(bodies) + [BodyBytes(b)]
  {
  }

  /** The loop over the fragments; `n` messages were pushed before. */
  method PushPieces(out: ReliableOutputStream<seq<byte>>, base: MessageHeader, fragments: seq<Fragment>, ghost n: nat)
    requires out.lastUnacked == Image(n - 1)
    requires forall x :: x in fragments ==> |x.bytes| <= 0xFFFF
    modifies out
    ensures out.View() == R.PushedAll(old(out.View()), OnWire(Pieces(Headers(base), n, fragments)))
  {
    hide Encode, HeaderItems, BodyBytes, Pushed, AddInt, R.PushedAll, Image;
    ghost var was := out.View();
    ghost var pieces := Pieces(Headers(base), n, []);
    assert fragments[..0] == [] && OnWire(pieces) == [];
    NonePushed(was);
    for i := 0 to |fragments|
      invariant pieces == Pieces(Headers(base), n, fragments[..i]) && |pieces| == i
      invariant out.View() == R.PushedAll(was, OnWire(pieces))
    {
      PiecesOneMore(Headers(base), n, fragments, i);
      NumberAfter(was, OnWire(pieces), n);
      var h := base.(sequence := AddInt(out.lastUnacked, 1));
      var message := BuildFragment(h, fragments[i].bytes, fragments[i].last);
      ghost var piece := Piece(Headers(base)(n + i), fragments[i].bytes, fragments[i].last);
      OnWireOneMore(pieces, piece);
      R.PushedAllOneMore(was, OnWire(pieces), message);
      out.PushMessage(message);
      pieces := pieces + [piece];
    }
    assert fragments[..|fragments|] == fragments;
  }

  lemma NonePushed(o: Output<seq<byte>>)
    ensures R.PushedAll(o, []) == o
  {
  }

  /** The number behind those that were given to some messages. */
  lemma NumberAfter(o: Output<seq<byte>>, messages: seq<seq<byte>>, n: nat)
    requires o.lastUnacked == Image(n - 1)
    ensures AddInt(R.PushedAll(o, messages).lastUnacked, 1) == Image(n + |messages|)
  {
    R.PushedAllNumber(o, messages, n);
    ArithmeticCommutes(n + |messages| - 1, 1);
  }

  method PushWhole(out: ReliableOutputStream<seq<byte>>, base: MessageHeader, payload: Payload, ghost n: nat)
    requires out.lastUnacked == Image(n - 1)
    modifies out
    ensures var message := StreamHeader(base, n) + Serialized(Submessage(FLAG_LITTLE_ENDIANNESS, payload));
            out.View() == R.PushedAll(old(out.View()), [message])
  {
    hide Encode, HeaderItems, SubmessageItems, Message, AddInt;
    ArithmeticCommutes(n - 1, 1);
    var m := BuildReply(base.(sequence := AddInt(out.lastUnacked, 1)), payload);
    var message := m.buf[..];
    assert message == m.Written();
    ReassembledIsMessage(base, n, Submessage(FLAG_LITTLE_ENDIANNESS, payload));
    R.PushedAllOneMore(out.View(), [], message);
    assert [] + [message] == [message];
    out.PushMessage(message);
  }

  /** A submessage that does not fit in one message: whatever the loop has cut off in so many turns is pushed. */
  method PushCut(out: ReliableOutputStream<seq<byte>>, base: MessageHeader, data: seq<byte>, mtu: uint16,
                 headerSize: nat, turns: nat, ghost n: nat)
    returns (end: Ending, ghost pushed: seq<seq<byte>>)
    requires out.lastUnacked == Image(n - 1) && headerSize <= 8
    modifies out
    ensures out.View() == R.PushedAll(old(out.View()), pushed)
    ensures var room := mtu - headerSize - SUBHEADER_SIZE;
            && (end.Left? <==> turns > 0 && Returns(|data|, room) && (room > 0 ==> |Split(data, room)| <= turns))
            && (end.Left? && room > 0 ==> pushed == OnWire(Pieces(Headers(base), n, Split(data, room))))
            && (end.Left? && room <= 0 ==> pushed == OnWire(Pieces(Headers(base), n, [Fragment(data, room == 0)])))
            && (end.Outside? ==> room < 0)
            && (room < 0 && turns > 1 && |data| <= 0xFFFF && !Returns(|data|, room) ==> end.Outside?)
            && (end.Going? ==> |pushed| == turns)
  {
    hide Split, Pieces, R.PushedAll, Image, OnWire;
    var fragments;
    end, fragments := SplitSubmessage(data, mtu, headerSize, turns);
    PushPieces(out, base, fragments, n);
    pushed := OnWire(Pieces(Headers(base), n, fragments));
    PiecesLength(Headers(base), n, fragments);
    OnWireLength(Pieces(Headers(base), n, fragments));
  }

  /** The room behind the headers of a fragment; negative for an MTU smaller than they are. */
  function Room(base: MessageHeader, mtu: uint16): int {
    mtu - (if base.session < 128 then 8 else 4) - SUBHEADER_SIZE
  }

  /**
   * `push_submessage`, when `n` messages were pushed before, its loop watched for some turns, for every MTU.  At an
   * open window a submessage that can be sent joins the stream, whole or in fragments, under the next numbers.  If it
   * cannot, the call pushes a message in every turn and never returns, or leaves the submessage, or, for one size at
   * each MTU below the headers, pushes all of it as one fragment that is not marked as the last.
   */
  method PushSubmessage(out: ReliableOutputStream<seq<byte>>, base: MessageHeader, payload: Payload, mtu: uint16,
                        turns: nat, ghost n: nat)
    returns (end: Ending, rv: bool, ghost pushed: seq<seq<byte>>)
    requires out.lastUnacked == Image(n - 1)
    modifies out
    ensures out.View() == R.PushedAll(old(out.View()), pushed)
    ensures rv <==> end.Left? && WindowOpen(old(out.View()))
    ensures !WindowOpen(old(out.View())) ==> end.Left? && pushed == []
    ensures var s := Submessage(FLAG_LITTLE_ENDIANNESS, payload);
            var (data, room) := (Serialized(s), Room(base, mtu));
            WindowOpen(old(out.View())) ==>
              if Sendable(base, s, mtu) then
                && (turns > |data| ==> end.Left?)
                && (end.Left? ==> pushed == OnWire(Bodies(Headers(base), n, data, mtu)))
                && (!end.Left? ==> end.Going? && |pushed| == turns)
              else
                && (end.Left? <==> turns > 0 && room < 0 && |data| == MAX + room)
                && (end.Left? ==> pushed == OnWire([Piece(StreamHeader(base, n), data, false)]))
                && (end.Outside? ==> room < 0)
                && (room < 0 && turns > 1 && |data| <= 0xFFFF && |data| != MAX + room ==> end.Outside?)
                && (end.Going? ==> |pushed| == turns)
  {
    hide Serialized, Pieces, Split, AddInt, Encode, HeaderItems, R.PushedAll, Less, Image, AddSeq, OnWire, Bodies;
    hide Sendable, StreamHeader, Headers, Returns;
    end, pushed := Left, [];
    NonePushed(out.View());
    rv := Less(out.lastUnacked, AddSeq(out.firstUnacked, DEPTH - 1));
    if rv {
      HeaderLengthAt(base, AddInt(out.lastUnacked, 1));
      var headerSize := HeaderSize(base.(sequence := AddInt(out.lastUnacked, 1)), 0);
      var data := Serialized(Submessage(FLAG_LITTLE_ENDIANNESS, payload));
      WaysToTravel(base, n, Submessage(FLAG_LITTLE_ENDIANNESS, payload), mtu);
      if headerSize + |data| <= mtu {
        PushWhole(out, base, payload, n);
        pushed := [StreamHeader(base, n) + data];
      } else {
        end, pushed := PushCut(out, base, data, mtu, headerSize, turns, n);
        rv := end.Left?;
      }
    }
  }

  /** The shapes in which a submessage travels, for every MTU. */
  lemma WaysToTravel(base: MessageHeader, n: nat, s: Submessage, mtu: uint16)
    ensures var (data, room) := (Serialized(s), Room(base, mtu));
            var bodies := Bodies(Headers(base), n, data, mtu);
            if |data| <= room + SUBHEADER_SIZE
            then Sendable(base, s, mtu) && OnWire(bodies) == [StreamHeader(base, n) + data]
            else
              && (Sendable(base, s, mtu) <==> room > 0 && Returns(|data|, room))
              && (room > 0 ==> bodies == Pieces(Headers(base), n, Split(data, room))
                               && 1 <= |Split(data, room)| <= |data| + 1)
              && (room <= 0 ==> (Returns(|data|, room) <==> room < 0 && |data| == MAX + room))
              && Pieces(Headers(base), n, [Fragment(data, false)]) == [Piece(StreamHeader(base, n), data, false)]
  {
    hide Serialized, StreamHeader, Split, Pieces;
    var (data, room) := (Serialized(s), Room(base, mtu));
    HeaderLength(base, n);
    NotEmpty(s);
    if room > 0 {
      SplitNotEmpty(data, room);
    }
    OnePiece(Headers(base), n, Fragment(data, false));
  }

  lemma OnePiece(header: nat -> seq<byte>, n: nat, f: Fragment)
    ensures Pieces(header, n, [f]) == [Piece(header(n), f.bytes, f.last)]
  {
    assert [f] == [f] + [];
    PiecesCons(header, n, f, []);
  }

  lemma NotEmpty(s: Submessage)
    ensures |Serialized(s)| >= 4
  {
    hide Encode, SubheaderItems, PayloadItems;
    EncodeAppend(SubheaderItems(SubheaderOf(s)), PayloadItems(s.payload), 0);
    EncodedSubheader(SubheaderOf(s), 0);
  }

  lemma HeaderLengthAt(base: MessageHeader, sequence: uint16)
    ensures |Encode(HeaderItems(base.(sequence := sequence)), 0)| == if base.session < 128 then 8 else 4
  {
    hide Encode, HeaderItems;
    HeaderBytes(base.(sequence := sequence));
  }

  // ---------- handling what arrived ----------

  /** The messages that can be popped one after the other. */
  function PoppedAll<T>(i: Input<T>): seq<T>
    decreases |i.messages|
  {
    var n := AddInt(i.lastHandled, 1);
    if n in i.messages then [i.messages[n]] + PoppedAll(Popped(i)) else []
  }

  function Drained<T>(i: Input<T>): Input<T>
    decreases |i.messages|
  {
    if AddInt(i.lastHandled, 1) in i.messages then Drained(Popped(i)) else i
  }

  /** Draining the stream is popping until nothing is next, one `Pop` of the link after the other. */
  lemma {:induction false} DrainIsPops<T>(l: L.Link<T>)
    ensures var popped := PoppedAll(l.receiver);
            L.PoppedTimes(l, |popped|) ==
              l.(receiver := Drained(l.receiver), h := l.h + |popped|, delivered := l.delivered + popped)
    ensures L.Step(L.PoppedTimes(l, |PoppedAll(l.receiver)|), L.Pop) == L.PoppedTimes(l, |PoppedAll(l.receiver)|)
    decreases |l.receiver.messages|
  {
    hide AddInt;
    var n := AddInt(l.receiver.lastHandled, 1);
    if n in l.receiver.messages {
      var (next, rest) := (L.Step(l, L.Pop), PoppedAll(Popped(l.receiver)));
      DrainIsPops(next);
      Associative(l.delivered, [l.receiver.messages[n]], rest);
    } else {
      assert l.delivered + [] == l.delivered;
    }
  }

  lemma AllDecodedAppend(a: seq<seq<byte>>, b: seq<seq<byte>>)
    ensures AllDecoded(a + b) == AllDecoded(a) + AllDecoded(b)
  {
    hide Decoded;
  }

  /** What `InputStream.Process` hands on, and leaves in the buffer, is what the delivered messages of the link hand
      on and leave after these pops. */
  lemma ProcessIsDelivery(l: L.Link<seq<byte>>)
    ensures var (buffer, handed) := Handled([], AllDecoded(l.delivered));
            var (left, more) := Handled(buffer, AllDecoded(PoppedAll(l.receiver)));
            Handled([], AllDecoded(L.PoppedTimes(l, |PoppedAll(l.receiver)|).delivered)) == (left, handed + more)
  {
    hide Handled, AllDecoded;
    var popped := PoppedAll(l.receiver);
    DrainIsPops(l);
    AllDecodedAppend(l.delivered, popped);
    HandledAppend([], AllDecoded(l.delivered), AllDecoded(popped));
  }

  lemma AllDecodedOneMore(messages: seq<seq<byte>>, message: seq<byte>)
    ensures AllDecoded(messages + [message]) == AllDecoded(messages) + [Decoded(message)]
  {
  }

  lemma HandledOneMore(buffer: seq<byte>, bodies: seq<Body>, body: Body)
    ensures var (middle, handed) := Handled(buffer, bodies);
            Handled(buffer, bodies + [body]) == (Taken(middle, body).0, handed + Taken(middle, body).1)
  {
    HandledAppend(buffer, bodies, [body]);
    var middle := Handled(buffer, bodies).0;
    HandledCons(middle, body, []);
    assert [body] + [] == [body] && Taken(middle, body).1 + [] == Taken(middle, body).1;
  }

  /** A reliable input stream with its fragment buffer. */
  class InputStream {
    const stream: ReliableInputStream<seq<byte>>
    const fragments: FragmentBuffer

    constructor ()
      ensures fresh(stream) && fresh(fragments)
      ensures stream.View() == Input(map[], 0xFFFF, 0xFFFF) && fragments.message == [] && !fragments.available
    {
      stream := new ReliableInputStream();
      fragments := new FragmentBuffer();
    }

    /** The numbers start again and the kept messages are gone; the fragment buffer is not touched. */
    method Reset()
      modifies stream
      ensures stream.View() == Input(map[], 0xFFFF, 0xFFFF)
    {
      stream.Reset();
    }

    /** The loop of `process_input_packet`: handle whatever is next in order. */
    method Process() returns (handed: seq<seq<byte>>)
      requires !fragments.available
      modifies stream, fragments
      ensures !fragments.available && stream.View() == Drained(old(stream.View()))
      ensures (fragments.message, handed) == Handled(old(fragments.message), AllDecoded(PoppedAll(old(stream.View()))))
    {
      hide Handled, Taken, Decoded, AllDecoded, AddInt;
      handed := [];
      ghost var (popped: seq<seq<byte>>, was, buffer) := ([], stream.View(), fragments.message);
      NothingDecoded(buffer);
      while true
        invariant !fragments.available
        invariant PoppedAll(was) == popped + PoppedAll(stream.View()) && Drained(was) == Drained(stream.View())
        invariant (fragments.message, handed) == Handled(buffer, AllDecoded(popped))
        decreases |stream.messages|
      {
        ghost var next := stream.View();
        var message := stream.PopMessage();
        if message.None? {
          break;
        }
        AllDecodedOneMore(popped, message.value);
        HandledOneMore(buffer, AllDecoded(popped), Decoded(message.value));
        Associative(popped, [message.value], PoppedAll(stream.View()));
        var more := fragments.Take(message.value);
        handed, popped := handed + more, popped + [message.value];
      }
      assert popped + [] == popped;
    }
  }

  lemma NothingDecoded(buffer: seq<byte>)
    ensures Handled(buffer, AllDecoded([])) == (buffer, [])
  {
  }
}
