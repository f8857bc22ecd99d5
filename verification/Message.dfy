/**
 * Messages: a header and submessages that start at multiples of four (include/uxr/agent/message/OutputMessage.hpp,
 * include/uxr/agent/message/InputMessage.hpp, src/cpp/types/MessageHeader.cpp, src/cpp/types/SubMessageHeader.cpp).
 */
module Messages {

  import opened Arithmetic
  import opened Options
  import opened Words
  import opened Cdrs
  import opened Payloads
  import opened PayloadSizes

  datatype MessageHeader = MessageHeader(session: byte, stream: byte, sequence: uint16, key: Octets4)

  datatype Subheader = Subheader(id: byte, flags: byte, length: uint16)

  datatype Submessage = Submessage(flags: byte, payload: Payload)

  /** Session ids below 128 carry the client key in every message. */
  predicate Keyed(h: MessageHeader) {
    h.session < 128
  }

  function HeaderItems(h: MessageHeader): seq<Item> {
    [U8(h.session), U8(h.stream), U16(h.sequence)] + (if Keyed(h) then [Raw(h.key)] else [])
  }

  function SubheaderItems(s: Subheader): seq<Item> {
    [U8(s.id), U8(s.flags), U16(s.length)]
  }

  function GetHeader(buf: seq<byte>, pos: nat): (got: Got<MessageHeader>)
    ensures got.Within(pos, |buf|)
    ensures got.Got? ==> got.pos >= pos + (if got.value.session < 128 then 8 else 4) && got.pos <= |buf|
  {
    var (session, p) :- Get8(buf, pos);
    var (stream, q) :- Get8(buf, p);
    var (sequence, r) :- Get16(buf, q, true);
    if session < 128 then
      var (key, s) :- GetRaw(buf, r, 4);
      Got(MessageHeader(session, stream, sequence, key), s)
    else Got(MessageHeader(session, stream, sequence, [0, 0, 0, 0]), r)
  }

  function GetSubheader(buf: seq<byte>, pos: nat): (got: Got<Subheader>)
    ensures got.Within(pos, |buf|) && (got.Got? ==> pos < got.pos)
  {
    var (id, p) :- Get8(buf, pos);
    var (flags, q) :- Get8(buf, p);
    var (length, r) :- Get16(buf, q, true);
    Got(Subheader(id, flags, length), r)
  }

  method HeaderSize(h: MessageHeader, initial: nat) returns (size: nat)
    ensures size == |Encode(HeaderItems(h), initial)|
  {
    hide Encode;
    var current := initial;
    current := current + 1 + Pad(current, 1);
    current := current + 1 + Pad(current, 1);
    current := current + 2 + Pad(current, 2);
    ghost var fixed := [U8(h.session), U8(h.stream), U16(h.sequence)];
    EncodeThree(fixed[0], fixed[1], fixed[2], initial);
    if 128 > h.session {
      EncodeAppend(fixed, [Raw(h.key)], initial);
      EncodeOne(Raw(h.key), current);
      current := current + 4 + Pad(current, 1);
    } else {
      assert HeaderItems(h) == fixed;
    }
    size := current - initial;
  }

  method SubheaderSize(s: Subheader, initial: nat) returns (size: nat)
    ensures size == |Encode(SubheaderItems(s), initial)|
  {
    hide Encode;
    var current := initial;
    current := current + 1 + Pad(current, 1);
    current := current + 1 + Pad(current, 1);
    current := current + 2 + Pad(current, 2);
    size := current - initial;
    EncodeThree(U8(s.id), U8(s.flags), U16(s.length), initial);
  }

  lemma HeaderBytes(h: MessageHeader)
    ensures |Encode(HeaderItems(h), 0)| == if Keyed(h) then 8 else 4
  {
    hide Encode;
    var fixed := [U8(h.session), U8(h.stream), U16(h.sequence)];
    EncodeThree(fixed[0], fixed[1], fixed[2], 0);
    if Keyed(h) {
      EncodeAppend(fixed, [Raw(h.key)], 0);
      EncodeOne(Raw(h.key), 4);
    } else {
      assert HeaderItems(h) == fixed;
    }
  }

  // ---------- what a message is ----------

  /** The subheader of a payload: the length is truncated to sixteen bits. */
  function SubheaderOf(s: Submessage): Subheader {
    Subheader(s.payload.Id(), s.flags, LengthOf(s.payload))
  }

  function SubmessageItems(s: Submessage): seq<Item> {
    SubheaderItems(SubheaderOf(s)) + PayloadItems(s.payload)
  }

  /** A message with one more subheader and something behind it. */
  function FramedItems(bytes: seq<byte>, sub: Subheader, items: seq<Item>): seq<byte> {
    var start := bytes + Zeros(Pad(|bytes|, 4));
    start + Encode(SubheaderItems(sub) + items, |start|)
  }

  /** A message with one more submessage. */
  function Framed(bytes: seq<byte>, s: Submessage): seq<byte> {
    FramedItems(bytes, SubheaderOf(s), PayloadItems(s.payload))
  }

  function Message(h: MessageHeader, subs: seq<Submessage>): seq<byte> {
    if subs == [] then Encode(HeaderItems(h), 0) else Framed(Message(h, subs[..|subs| - 1]), subs[|subs| - 1])
  }

  /** A message with a raw payload behind a given subheader, as for a fragment. */
  function FramedRaw(bytes: seq<byte>, sub: Subheader, payload: seq<byte>): seq<byte> {
    FramedItems(bytes, sub, [Raw(payload)])
  }

  lemma ThreeParts(s: seq<byte>, i: nat, j: nat, k: nat)
    requires i <= j <= k <= |s|
    ensures s[..k] == s[..i] + (s[i..j] + s[j..k])
  {
  }

  class OutputMessage {
    const buf: array<byte>
    var pos: nat

    ghost predicate Valid()
      reads this, buf
    {
      pos <= buf.Length && forall k :: pos <= k < buf.Length ==> buf[k] == 0
    }

    ghost function Written(): seq<byte>
      requires Valid()
      reads this, buf
    {
      buf[..pos]
    }

    constructor (header: MessageHeader, len: nat)
      ensures Valid() && fresh(buf) && buf.Length == len
      ensures |Encode(HeaderItems(header), 0)| <= len ==> Written() == Encode(HeaderItems(header), 0)
    {
      buf := new byte[len](_ => 0);
      pos := 0;
      new;
      var ok := Serialize(HeaderItems(header));
    }

    /** Copy bytes behind some padding, and move behind them. */
    method Store(padding: nat, bytes: seq<byte>)
      requires Valid() && pos + padding + |bytes| <= buf.Length
      modifies this, buf
      ensures Valid() && Written() == old(Written()) + (Zeros(padding) + bytes)
    {
      var at := pos + padding;
      forall k | 0 <= k < |bytes| {
        buf[at + k] := bytes[k];
      }
      pos := at + |bytes|;
      assert buf[at..pos] == bytes;
      assert buf[old(pos)..at] == Zeros(padding);
      ThreeParts(buf[..], old(pos), at, pos);
    }

    /** One `<<`: either the whole item with its padding, or nothing. */
    method Put(i: Item) returns (ok: bool)
      requires Valid()
      modifies this, buf
      ensures Valid()
      ensures ok <==> old(pos) + |EncodeItem(i, old(pos))| <= buf.Length
      ensures Written() == if ok then old(Written()) + EncodeItem(i, old(pos)) else old(Written())
    {
      hide Pad, AlignmentOf, ContentsOf, Zeros;
      var padding, bytes := Pad(pos, AlignmentOf(i)), ContentsOf(i);
      ok := pos + padding + |bytes| <= buf.Length;
      if ok {
        Store(padding, bytes);
      }
    }

    /** The `serialize` of a type; when the buffer is too short, the items that fit stay written. */
    method Serialize(items: seq<Item>) returns (ok: bool)
      requires Valid()
      modifies this, buf
      ensures Valid()
      ensures ok <==> old(pos) + |Encode(items, old(pos))| <= buf.Length
      ensures ok ==> Written() == old(Written()) + Encode(items, old(pos))
      ensures old(Written()) <= Written()
    {
      hide EncodeItem, Encode;
      ghost var start := pos;
      EncodeNone(start);
      for i := 0 to |items|
        invariant Valid()
        invariant Written() == old(Written()) + Encode(items[..i], start)
      {
        EncodeOneMore(items, i, start);
        Associative(old(Written()), Encode(items[..i], start), EncodeItem(items[i], pos));
        ok := Put(items[i]);
        if !ok {
          return;
        }
      }
      assert items[..|items|] == items;
      ok := true;
    }

    /** `jump` to the next multiple of four; it does not move when the buffer ends before that. */
    method JumpToSubmessage()
      requires Valid()
      modifies this`pos
      ensures Valid()
      ensures var pad := Pad(old(pos), 4);
              if old(pos) + pad <= buf.Length then Written() == old(Written()) + Zeros(pad) else pos == old(pos)
    {
      var pad := Pad(pos, 4);
      if pos + pad <= buf.Length {
        pos := pos + pad;
        assert buf[..pos] == old(buf[..pos]) + Zeros(pad);
      }
    }

    method AppendSubheader(id: byte, flags: byte, length: nat) returns (ok: bool)
      requires Valid()
      modifies this, buf
      ensures Valid()
      ensures var start := old(Written()) + Zeros(Pad(old(pos), 4));
              && (ok <==> |start| + 4 <= buf.Length)
              && (ok ==> Written() == start + Encode(SubheaderItems(Subheader(id, flags, length % 0x1_0000)), |start|))
      ensures old(Written()) <= Written()
    {
      hide Encode, EncodeItem;
      var subheader := Subheader(id, flags, length % 0x1_0000);
      JumpToSubmessage();
      ok := Serialize(SubheaderItems(subheader));
      EncodedSubheader(subheader, old(pos) + Pad(old(pos), 4));
      EncodedSubheader(subheader, old(pos));
    }

    /** Appending succeeds exactly when the message with the submessage fits, and then it is that message. */
    method AppendSubmessage(s: Submessage) returns (ok: bool)
      requires Valid()
      modifies this, buf
      ensures Valid()
      ensures ok <==> |Framed(old(Written()), s)| <= buf.Length
      ensures ok ==> Written() == Framed(old(Written()), s)
      ensures old(Written()) <= Written()
    {
      hide Encode, EncodeItem, SubheaderItems, PayloadItems;
      var length := PayloadSize(s.payload, 0);
      ghost var start := old(Written()) + Zeros(Pad(old(pos), 4));
      ghost var sub := SubheaderItems(SubheaderOf(s));
      EncodeAppend(sub, PayloadItems(s.payload), |start|);
      EncodedSubheader(SubheaderOf(s), |start|);
      ok := AppendSubheader(s.payload.Id(), s.flags, length);
      if ok {
        ok := Serialize(PayloadItems(s.payload));
      }
    }

    /** Appending a fragment succeeds exactly when the message with it fits, and then it is that message. */
    method AppendFragment(sub: Subheader, payload: seq<byte>) returns (ok: bool)
      requires Valid()
      modifies this, buf
      ensures Valid()
      ensures ok <==> |FramedRaw(old(Written()), sub, payload)| <= buf.Length
      ensures ok ==> Written() == FramedRaw(old(Written()), sub, payload)
      ensures old(Written()) <= Written()
    {
      hide Encode, EncodeItem, SubheaderItems;
      ghost var start := old(Written()) + Zeros(Pad(old(pos), 4));
      EncodeAppend(SubheaderItems(sub), [Raw(payload)], |start|);
      EncodedSubheader(sub, |start|);
      EncodedSubheader(sub, old(pos));
      JumpToSubmessage();
      ok := Serialize(SubheaderItems(sub));
      if ok {
        ok := Serialize([Raw(payload)]);
      }
    }
  }

  lemma EncodeOneMore(items: seq<Item>, i: nat, pos: nat)
    requires i < |items|
    ensures var next := pos + |Encode(items[..i], pos)|;
            && Encode(items[..i + 1], pos) == Encode(items[..i], pos) + EncodeItem(items[i], next)
            && next + |EncodeItem(items[i], next)| <= pos + |Encode(items, pos)|
  {
    hide EncodeItem, Encode;
    var next := pos + |Encode(items[..i], pos)|;
    assert items[..i + 1] == items[..i] + [items[i]];
    assert items == items[..i + 1] + items[i + 1..];
    EncodeAppend(items[..i], [items[i]], pos);
    EncodeOne(items[i], next);
    EncodeAppend(items[..i + 1], items[i + 1..], pos);
  }

  lemma EncodedSubheader(s: Subheader, pos: nat)
    ensures |Encode(SubheaderItems(s), pos)| >= 4
    ensures pos % 4 == 0 ==> |Encode(SubheaderItems(s), pos)| == 4
  {
    hide Encode;
    EncodeThree(U8(s.id), U8(s.flags), U16(s.length), pos);
  }

  // ---------- reading a message ----------

  /** `prepare_next_submessage`: jump to a multiple of four if there is room, then read a subheader if anything is
      left. */
  function NextSubheader(buf: seq<byte>, pos: nat): (got: Got<Subheader>)
    ensures got.Within(pos, |buf|) && (got.Got? ==> pos < got.pos)
  {
    var start := pos + Pad(pos, 4);
    var at := if start <= |buf| then start else pos;
    if at < |buf| then GetSubheader(buf, at) else Short(at)
  }

  predicate LittleEndian(flags: byte) {
    flags % 2 == 1
  }

  /** `get_raw_header`: the bytes of the header. */
  function RawHeader(buf: seq<byte>, session: byte): seq<byte>
    requires |buf| >= if session < 128 then 8 else 4
  {
    if session < 128 then buf[..8] else buf[..4]
  }

  /** What `get_raw_payload` leaves in a buffer of the announced length, which holds zeros before. */
  function RawPayload(buf: seq<byte>, pos: nat, length: nat): (bytes: seq<byte>)
    ensures |bytes| == length
  {
    if pos + length <= |buf| then buf[pos..pos + length] else Zeros(length)
  }

  type Parsed = (Subheader, Payload)

  /** `process_input_message`: submessages until one cannot be read; the position says where. */
  function ParseFrom(buf: seq<byte>, pos: nat): (seq<Parsed>, nat)
    requires pos <= |buf|
    decreases |buf| - pos
  {
    match NextSubheader(buf, pos)
    case Got(subheader, p) =>
      (match GetPayload(buf, p, subheader.id, subheader.length, LittleEndian(subheader.flags))
       case Got(payload, q) =>
         var (more, end) := ParseFrom(buf, q);
         ([(subheader, payload)] + more, end)
       case _ => ([], p))
    case _ => ([], pos)
  }

  class InputMessage {
    const buf: seq<byte>
    var pos: nat
    var header: Option<MessageHeader>
    var subheader: Subheader
    var little: bool

    constructor (buf: seq<byte>)
      ensures this.buf == buf && pos <= |buf| && little
      ensures match GetHeader(buf, 0)
              case Got(h, p) => header == Some(h) && pos == p
              case _ => header == None
    {
      this.buf, pos, header, subheader, little := buf, 0, None, Subheader(0, 0, 0), true;
      var got := GetHeader(buf, 0);
      if got.Got? {
        header, pos := Some(got.value), got.pos;
      }
    }

    method PrepareNextSubmessage() returns (rv: bool)
      requires pos <= |buf|
      modifies this
      ensures pos <= |buf| && header == old(header)
      ensures match NextSubheader(buf, old(pos))
              case Got(s, p) => rv && subheader == s && pos == p && little == LittleEndian(s.flags)
              case _ => !rv
    {
      var pad := Pad(pos, 4);
      if pos + pad <= |buf| {
        pos := pos + pad;
      }
      rv := false;
      if |buf| > pos {
        var got := GetSubheader(buf, pos);
        if got.Got? {
          subheader, pos, rv := got.value, got.pos, true;
        }
        little := LittleEndian(subheader.flags);
      }
    }

    method ReadPayload() returns (payload: Option<Payload>)
      requires pos <= |buf|
      modifies this`pos
      ensures pos <= |buf|
      ensures match GetPayload(buf, old(pos), subheader.id, subheader.length, little)
              case Got(p, q) => payload == Some(p) && pos == q
              case _ => payload == None && pos == old(pos)
    {
      match GetPayload(buf, pos, subheader.id, subheader.length, little)
      case Got(p, q) =>
        payload, pos := Some(p), q;
      case _ =>
        payload := None;
    }

    method ReadAll() returns (read: seq<Parsed>)
      requires pos <= |buf|
      modifies this
      ensures read == ParseFrom(buf, old(pos)).0
    {
      hide GetPayload, NextSubheader, LittleEndian;
      read := [];
      ghost var whole := ParseFrom(buf, pos).0;
      while true
        invariant pos <= |buf| && whole == read + ParseFrom(buf, pos).0
        decreases |buf| - pos
      {
        var prepared := PrepareNextSubmessage();
        if !prepared {
          break;
        }
        var payload := ReadPayload();
        if payload.None? {
          break;
        }
        read := read + [(subheader, payload.value)];
      }
    }
  }

  // ---------- reading undoes writing ----------

  /** What a header comes back as: without a key in the message, the key is zero. */
  function Received(h: MessageHeader): MessageHeader {
    if Keyed(h) then h else h.(key := [0, 0, 0, 0])
  }

  /** The flags announce the byte order that was used, or the payload shows no harm of it. */
  predicate Legible(s: Submessage) {
    Readable(s.payload, LittleEndian(s.flags))
  }

  /** What a submessage comes back as; `SeenUnchangedIff` says when that is what it was. */
  function Arrived(s: Submessage): Parsed {
    (SubheaderOf(s), Seen(s.payload, LittleEndian(s.flags)))
  }

  lemma GetsHeader(buf: seq<byte>, h: MessageHeader)
    requires Holds(buf, 0, Encode(HeaderItems(h), 0))
    ensures GetHeader(buf, 0) == Got(Received(h), |Encode(HeaderItems(h), 0)|)
  {
    hide EncodeItem, Encode, Holds, Get8, Get16, GetRaw;
    var fixed := [U8(h.session), U8(h.stream), U16(h.sequence)];
    var rest := if Keyed(h) then [Raw(h.key)] else [];
    HoldsParts(buf, 0, fixed, rest);
    HoldsThree(buf, 0, fixed[0], fixed[1], fixed[2]);
    Gets8(buf, 0, h.session);
    var next := |EncodeItem(fixed[0], 0)|;
    Gets8(buf, next, h.stream);
    Gets16(buf, next + |EncodeItem(fixed[1], next)|, h.sequence, true);
    var end := |Encode(fixed, 0)|;
    if Keyed(h) {
      EncodeOne(Raw(h.key), end);
      GetsRaw(buf, end, h.key);
    } else {
      EncodeNone(end);
    }
  }

  lemma GetsSubheader(buf: seq<byte>, pos: nat, s: Subheader)
    requires Holds(buf, pos, Encode(SubheaderItems(s), pos))
    ensures GetSubheader(buf, pos) == Got(s, pos + |Encode(SubheaderItems(s), pos)|)
  {
    hide EncodeItem, Encode, Holds, Get8, Get16;
    HoldsThree(buf, pos, U8(s.id), U8(s.flags), U16(s.length));
    Gets8(buf, pos, s.id);
    var next := pos + |EncodeItem(U8(s.id), pos)|;
    Gets8(buf, next, s.flags);
    Gets16(buf, next + |EncodeItem(U8(s.flags), next)|, s.length, true);
  }

  /** What was appended is held where it was appended, behind the padding. */
  lemma HoldsFramed(buf: seq<byte>, before: seq<byte>, sub: Subheader, items: seq<Item>)
    requires FramedItems(before, sub, items) <= buf
    ensures var at := |before| + Pad(|before|, 4);
            && Holds(buf, at, Encode(SubheaderItems(sub) + items, at))
            && at + |Encode(SubheaderItems(sub) + items, at)| == |FramedItems(before, sub, items)|
  {
    hide Encode, SubheaderItems;
    var start := before + Zeros(Pad(|before|, 4));
    var at := |start|;
    assert buf[at..at + |Encode(SubheaderItems(sub) + items, at)|] == FramedItems(before, sub, items)[at..];
  }

  lemma NextFramed(buf: seq<byte>, before: seq<byte>, sub: Subheader, items: seq<Item>)
    requires FramedItems(before, sub, items) <= buf
    ensures var at := |before| + Pad(|before|, 4);
            && at % 4 == 0
            && NextSubheader(buf, |before|) == Got(sub, at + 4)
            && Holds(buf, at + 4, Encode(items, at + 4))
            && at + 4 + |Encode(items, at + 4)| == |FramedItems(before, sub, items)|
  {
    hide Encode, EncodeItem, Holds, FramedItems, GetSubheader, SubheaderItems;
    var at := |before| + Pad(|before|, 4);
    HoldsFramed(buf, before, sub, items);
    HoldsParts(buf, at, SubheaderItems(sub), items);
    EncodedSubheader(sub, at);
    GetsSubheader(buf, at, sub);
  }

  /** Reading where a submessage was appended gives its subheader and payload and ends where it ends. */
  lemma ParsesAppended(buf: seq<byte>, before: seq<byte>, s: Submessage)
    requires Framed(before, s) <= buf && Legible(s)
    ensures var end := |Framed(before, s)|;
            && |before| < end <= |buf|
            && ParseFrom(buf, |before|) == ([Arrived(s)] + ParseFrom(buf, end).0, ParseFrom(buf, end).1)
  {
    hide Encode, Holds, FramedItems, NextSubheader, GetPayload, PayloadItems;
    NextFramed(buf, before, SubheaderOf(s), PayloadItems(s.payload));
    GetsPayload(buf, |before| + Pad(|before|, 4) + 4, s.payload, LittleEndian(s.flags));
  }

  lemma ParsesEnd(buf: seq<byte>)
    ensures ParseFrom(buf, |buf|) == ([], |buf|)
  {
  }

  lemma {:induction false} MessagesGrow(h: MessageHeader, subs: seq<Submessage>, n: nat)
    requires n <= |subs|
    ensures Message(h, subs[..n]) <= Message(h, subs)
  {
    hide Encode;
    if n < |subs| {
      var front := subs[..|subs| - 1];
      MessagesGrow(h, front, n);
      assert front[..n] == subs[..n];
    } else {
      assert subs[..n] == subs;
    }
  }

  /** What reading a list of submessages should give. */
  function Expected(subs: seq<Submessage>): seq<Parsed> {
    seq(|subs|, i requires 0 <= i < |subs| => Arrived(subs[i]))
  }

  lemma {:induction false} ParsesTail(h: MessageHeader, subs: seq<Submessage>, n: nat)
    requires n <= |subs| && forall s :: s in subs ==> Legible(s)
    ensures |Message(h, subs[..n])| <= |Message(h, subs)|
    ensures ParseFrom(Message(h, subs), |Message(h, subs[..n])|) == (Expected(subs[n..]), |Message(h, subs)|)
    decreases |subs| - n
  {
    hide Encode, GetPayload, NextSubheader, ParseFrom, Framed, Arrived;
    MessagesGrow(h, subs, n);
    if n < |subs| {
      assert subs[..n + 1][..n] == subs[..n];
      MessagesGrow(h, subs, n + 1);
      ParsesAppended(Message(h, subs), Message(h, subs[..n]), subs[n]);
      ParsesTail(h, subs, n + 1);
      assert Expected(subs[n..]) == [Arrived(subs[n])] + Expected(subs[n + 1..]);
    } else {
      assert subs[..n] == subs && Expected(subs[n..]) == [];
      ParsesEnd(Message(h, subs));
    }
  }

  /** Parsing a message gives its header, then every submessage, and stops at its end. */
  lemma MessageRoundTrip(h: MessageHeader, subs: seq<Submessage>)
    requires forall s :: s in subs ==> Legible(s)
    ensures var m := Message(h, subs);
            && GetHeader(m, 0).Got? && GetHeader(m, 0).value == Received(h)
            && ParseFrom(m, GetHeader(m, 0).pos) == (Expected(subs), |m|)
  {
    hide Encode, GetPayload, GetSubheader, Framed, GetHeader;
    var m := Message(h, subs);
    MessagesGrow(h, subs, 0);
    assert Holds(m, 0, Encode(HeaderItems(h), 0));
    GetsHeader(m, h);
    ParsesTail(h, subs, 0);
  }

  /** The Agent's replies are allocated with the sum of the three sizes, and fill exactly that. */
  method BuildReply(h: MessageHeader, payload: Payload) returns (m: OutputMessage)
    ensures m.Valid() && m.Written() == Message(h, [Submessage(1, payload)]) && m.pos == m.buf.Length
  {
    hide Encode;
    var length := PayloadSize(payload, 0);
    var subheader := Subheader(payload.Id(), 1, length % 0x1_0000);
    var headerSize := HeaderSize(h, 0);
    var subheaderSize := SubheaderSize(subheader, 0);
    m := new OutputMessage(h, headerSize + subheaderSize + length);
    ExactReply(h, payload);
    var ok := m.AppendSubmessage(Submessage(1, payload));
  }

  /** A header is never in need of padding, so a message with one submessage is just the two. */
  lemma MessageOfOne(h: MessageHeader, s: Submessage)
    ensures var n := |Encode(HeaderItems(h), 0)|;
            && Message(h, [s]) == Framed(Encode(HeaderItems(h), 0), s)
            && Message(h, [s]) == Encode(HeaderItems(h), 0) + Encode(SubmessageItems(s), n)
            && n == if Keyed(h) then 8 else 4
  {
    hide Encode, SubheaderItems, PayloadItems, HeaderItems;
    var header := Encode(HeaderItems(h), 0);
    HeaderBytes(h);
    assert [s][..0] == [];
    assert header + Zeros(0) == header;
  }

  lemma ExactReply(h: MessageHeader, payload: Payload)
    ensures var s := Submessage(1, payload);
            && Message(h, [s]) == Framed(Encode(HeaderItems(h), 0), s)
            && |Message(h, [s])| ==
               |Encode(HeaderItems(h), 0)| + |Encode(SubheaderItems(SubheaderOf(s)), 0)| +
                 |Encode(PayloadItems(payload), 0)|
  {
    hide Encode, SubheaderItems, PayloadItems, HeaderItems;
    var s := Submessage(1, payload);
    var n := |Encode(HeaderItems(h), 0)|;
    MessageOfOne(h, s);
    EncodeAppend(SubheaderItems(SubheaderOf(s)), PayloadItems(payload), n);
    EncodedSubheader(SubheaderOf(s), n);
    EncodedSubheader(SubheaderOf(s), 0);
    EncodeFromMultipleOfFour(PayloadItems(payload), n + 4, 0);
  }
}
