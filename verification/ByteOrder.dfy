/**
 * What becomes of a submessage whose flags announce the other byte order than the one it was written in
 * (include/uxr/agent/message/InputMessage.hpp:96-112): for every payload and every message, exactly when it is read
 * as it was.
 */
module ByteOrders {

  import opened Options
  import opened Words
  import opened Cdrs
  import opened Payloads
  import opened Messages

  /** The value is read, up to this position; or anything else happens, but that value is not read. */
  ghost predicate ReadsAs<T>(got: Got<T>, value: T, end: nat, intact: bool) {
    if intact then got == Got(value, end) else got.Got? ==> got.value != value
  }

  /** Swapping the bytes of a number keeps its remainder modulo 255, so it never gives the number before. */
  lemma SwapIsNotOneLess(n: uint32)
    ensures Seen32(n, false) != n - 1
  {
    FourBytes(n);
    var (b0, b1, b2, b3) := (n % 0x100, n / 0x100 % 0x100, n / 0x1_0000 % 0x100, n / 0x100_0000);
    assert n - Seen32(n, false) == 255 * (65793 * (b3 - b0) + 256 * (b2 - b1));
  }

  lemma TextRead(buf: seq<byte>, pos: nat, t: Text)
    requires Holds(buf, pos, EncodeItem(U32(|t| + 1), pos))
    requires var next := pos + |EncodeItem(U32(|t| + 1), pos)|; Holds(buf, next, EncodeItem(Raw(t + [0]), next))
    ensures var next := pos + |EncodeItem(U32(|t| + 1), pos)|;
            ReadsAs(GetText(buf, pos, false), t, next + |EncodeItem(Raw(t + [0]), next)|, Palindrome32(|t| + 1))
  {
    hide EncodeItem, Get32, Seen32, Palindrome32, Holds;
    var next := pos + |EncodeItem(U32(|t| + 1), pos)|;
    Gets32(buf, pos, |t| + 1, false);
    Seen32Unchanged(|t| + 1);
    SwapIsNotOneLess(|t| + 1);
    RawHeld(buf, next, t + [0]);
    var n := Seen32(|t| + 1, false);
    if next + n <= |buf| {
      CharsAt(buf, next, t, n);
    }
  }

  lemma RawHeld(buf: seq<byte>, pos: nat, bytes: seq<byte>)
    requires Holds(buf, pos, EncodeItem(Raw(bytes), pos))
    ensures |EncodeItem(Raw(bytes), pos)| == |bytes| && Holds(buf, pos, bytes) && pos + |bytes| <= |buf|
  {
    HoldsContents(buf, pos, Raw(bytes));
  }

  /** Reading too few characters gives a shorter string, reading too many meets the NUL. */
  lemma CharsAt(buf: seq<byte>, next: nat, t: Text, n: nat)
    requires Holds(buf, next, t + [0]) && n != |t| && next + n <= |buf|
    ensures var chars := buf[next..next + n];
            var value := if n > 0 && chars[n - 1] == 0 then chars[..n - 1] else chars;
            && (n == |t| + 1 ==> value == t)
            && (n < |t| ==> value != t)
            && (n > |t| + 1 ==> 0 in value)
  {
    var (held, chars) := (buf[next..next + |t + [0]|], buf[next..next + n]);
    assert held == t + [0];
    assert forall i :: 0 <= i <= |t| && i < n ==> chars[i] == held[i];
    if n == |t| + 1 {
      assert chars == t + [0] && chars[..|t|] == t;
    } else if n > |t| + 1 {
      var value := if chars[n - 1] == 0 then chars[..n - 1] else chars;
      assert value[|t|] == held[|t|];
    }
  }

  /** The numbers of an address are byte palindromes; the length of a string counts its NUL. */
  predicate EvenAddress(a: Address) {
    match a
    case Small(_, _) => true
    case Medium(_, port) => Palindrome16(port)
    case Large(_, port) => Palindrome32(port)
    case Named(value) => Palindrome32(|value| + 1)
  }

  lemma AddressRead(buf: seq<byte>, pos: nat, a: Address)
    requires Holds(buf, pos, Encode(AddressItems(a), pos))
    ensures ReadsAs(GetAddress(buf, pos, false), a, pos + |Encode(AddressItems(a), pos)|, EvenAddress(a))
  {
    hide EncodeItem, Encode, Holds, Get8, Get16, Get32, GetRaw, GetText, Seen32, Palindrome32;
    var items := AddressItems(a);
    HoldsThree(buf, pos, items[0], items[1], items[2]);
    var next := pos + |EncodeItem(items[0], pos)|;
    var last := next + |EncodeItem(items[1], next)|;
    Gets8(buf, pos, items[0].octet);
    match a
    case Small(address, port) =>
      GetsRaw(buf, next, address);
      Gets8(buf, last, port);
    case Medium(address, port) =>
      GetsRaw(buf, next, address);
      Gets16(buf, last, port, false);
    case Large(address, port) =>
      GetsRaw(buf, next, address);
      Gets32(buf, last, port, false);
      Seen32Unchanged(port);
    case Named(value) =>
      TextRead(buf, next, value);
  }

  predicate AllEven(s: seq<Address>) {
    forall a :: a in s ==> EvenAddress(a)
  }

  lemma {:induction false} AddressesRead(buf: seq<byte>, pos: nat, s: seq<Address>)
    requires Holds(buf, pos, Encode(AddressesItems(s), pos))
    ensures ReadsAs(GetAddresses(buf, pos, |s|, false), s, pos + |Encode(AddressesItems(s), pos)|, AllEven(s))
    decreases |s|
  {
    hide EncodeItem, Encode, Holds, GetAddress, EvenAddress, AddressItems, AllEven;
    if s != [] {
      HoldsParts(buf, pos, AddressItems(s[0]), AddressesItems(s[1..]));
      AddressRead(buf, pos, s[0]);
      AllEvenFirst(s);
      var first := GetAddress(buf, pos, false);
      if first.Got? {
        var rest := GetAddresses(buf, first.pos, |s| - 1, false);
        if EvenAddress(s[0]) {
          AddressesRead(buf, first.pos, s[1..]);
        }
        if rest.Got? {
          ConsIs(first.value, rest.value, s);
        }
      }
    } else {
      EncodeNone(pos);
      AllEvenFirst(s);
    }
  }

  lemma AllEvenFirst(s: seq<Address>)
    ensures AllEven(s) <==> s == [] || (EvenAddress(s[0]) && AllEven(s[1..]))
  {
    hide EvenAddress;
    assert s != [] ==> s == [s[0]] + s[1..];
  }

  lemma ConsIs<T>(x: T, rest: seq<T>, s: seq<T>)
    requires s != []
    ensures [x] + rest == s <==> x == s[0] && rest == s[1..]
  {
    assert ([x] + rest)[1..] == rest && s == [s[0]] + s[1..];
  }

  predicate EvenActivity(a: Activity) {
    Palindrome16(a.availability) && Palindrome32(|a.addresses|) && AllEven(a.addresses)
  }

  lemma ActivityRead(buf: seq<byte>, pos: nat, a: Activity)
    requires Holds(buf, pos, Encode(ActivityItems(a), pos))
    ensures ReadsAs(GetActivity(buf, pos, false), a, pos + |Encode(ActivityItems(a), pos)|, EvenActivity(a))
  {
    hide EncodeItem, Encode, Holds, Get16, Get32, GetAddresses, AllEven, Seen32, Palindrome32;
    HoldsParts(buf, pos, [U16(a.availability), U32(|a.addresses|)], AddressesItems(a.addresses));
    HoldsTwo(buf, pos, U16(a.availability), U32(|a.addresses|));
    Gets16(buf, pos, a.availability, false);
    var p := Get16(buf, pos, false).pos;
    Gets32(buf, p, |a.addresses|, false);
    Seen32Unchanged(|a.addresses|);
    AddressesRead(buf, Get32(buf, p, false).pos, a.addresses);
  }

  predicate EvenInfo(info: ObjectInfo) {
    info.activity.Some? ==> EvenActivity(info.activity.value)
  }

  lemma ActivityOptionRead(buf: seq<byte>, pos: nat, a: Activity)
    requires Holds(buf, pos, Encode(ActivityOptionItems(Some(a)), pos))
    ensures var end := pos + |Encode(ActivityOptionItems(Some(a)), pos)|;
            ReadsAs(GetActivityOption(buf, pos, false), Some(a), end, EvenActivity(a))
  {
    hide EncodeItem, Encode, Holds, Get8, GetActivity, EvenActivity;
    HoldsParts(buf, pos, [FlagItem(true), U8(OBJK_AGENT)], ActivityItems(a));
    HoldsTwo(buf, pos, FlagItem(true), U8(OBJK_AGENT));
    Gets8(buf, pos, 1);
    var p := Get8(buf, pos).pos;
    Gets8(buf, p, OBJK_AGENT);
    ActivityRead(buf, Get8(buf, p).pos, a);
  }

  lemma ObjectInfoRead(buf: seq<byte>, pos: nat, info: ObjectInfo)
    requires Holds(buf, pos, Encode(ObjectInfoItems(info), pos))
    ensures ReadsAs(GetObjectInfo(buf, pos, false), info, pos + |Encode(ObjectInfoItems(info), pos)|, EvenInfo(info))
  {
    hide EncodeItem, Encode, Holds, GetConfigOption, GetActivityOption, EvenActivity;
    HoldsParts(buf, pos, ConfigItems(info.config), ActivityOptionItems(info.activity));
    GetsConfigOption(buf, pos, info.config);
    var next := GetConfigOption(buf, pos).pos;
    if info.activity.Some? {
      ActivityOptionRead(buf, next, info.activity.value);
    } else {
      GetsActivityOption(buf, next, info.activity, false);
    }
  }

  /** Every number of the payload is a byte palindrome. */
  predicate Even(p: Payload) {
    match p
    case GetInfo(_, mask) => Palindrome32(mask)
    case Info(_, info) => EvenInfo(info)
    case AckNack(first, _, _) => Palindrome16(first)
    case Heartbeat(first, last, _) => Palindrome16(first) && Palindrome16(last)
    case _ => true
  }

  lemma InfoRead(buf: seq<byte>, pos: nat, reply: Reply, info: ObjectInfo, length: uint16)
    requires Holds(buf, pos, Encode(PayloadItems(Info(reply, info)), pos))
    ensures var end := pos + |Encode(PayloadItems(Info(reply, info)), pos)|;
            ReadsAs(GetPayload(buf, pos, 6, length, false), Info(reply, info), end, EvenInfo(info))
  {
    hide EncodeItem, Encode, Holds, GetReply, GetObjectInfo, EvenInfo;
    HoldsParts(buf, pos, ReplyItems(reply), ObjectInfoItems(info));
    GetsReply(buf, pos, reply);
    ObjectInfoRead(buf, GetReply(buf, pos).pos, info);
  }

  /** Any payload is read as it was written, up to its end, if sixteen bits can count its sample, and its byte order
      is the announced one or all its numbers are byte palindromes; otherwise that payload is not read. */
  lemma PayloadReadIff(buf: seq<byte>, pos: nat, p: Payload, little: bool)
    requires Holds(buf, pos, Encode(PayloadItems(p), pos))
    ensures var end := pos + |Encode(PayloadItems(p), pos)|;
            ReadsAs(GetPayload(buf, pos, p.Id(), LengthOf(p), little), p, end, Counted(p) && (little || Even(p)))
  {
    hide Encode, Holds, GetPayload, Palindrome16, Palindrome32, EvenInfo, Seen, LengthOf;
    if !little && p.Info? {
      InfoRead(buf, pos, p.reply, p.info, LengthOf(p));
    } else if p.Data? {
      DataLength(p, pos);
      GetsData(buf, pos, p.request, p.sample, LengthOf(p), little);
    } else {
      GetsPayload(buf, pos, p, little);
      SeenUnchangedIff(p, little);
    }
  }

  // ---------- whole messages ----------

  function Sent(s: Submessage): Parsed {
    (SubheaderOf(s), s.payload)
  }

  predicate Survives(s: Submessage) {
    Counted(s.payload) && (LittleEndian(s.flags) || Even(s.payload))
  }

  lemma ParsesAppendedIff(buf: seq<byte>, before: seq<byte>, s: Submessage)
    requires Framed(before, s) <= buf
    ensures var (end, (parsed, at)) := (|Framed(before, s)|, ParseFrom(buf, |before|));
            && |before| < end <= |buf|
            && (if Survives(s) then (parsed, at) == ([Sent(s)] + ParseFrom(buf, end).0, ParseFrom(buf, end).1)
                else parsed == [] || parsed[0] != Sent(s))
  {
    hide Encode, Holds, FramedItems, NextSubheader, GetPayload, PayloadItems, Even, Counted, LengthOf;
    NextFramed(buf, before, SubheaderOf(s), PayloadItems(s.payload));
    PayloadReadIff(buf, |before| + Pad(|before|, 4) + 4, s.payload, LittleEndian(s.flags));
  }

  function AllSent(subs: seq<Submessage>): seq<Parsed> {
    seq(|subs|, i requires 0 <= i < |subs| => Sent(subs[i]))
  }

  ghost predicate AllSurvive(subs: seq<Submessage>) {
    forall s :: s in subs ==> Survives(s)
  }

  lemma {:induction false} TailReadIff(h: MessageHeader, subs: seq<Submessage>, n: nat)
    requires n <= |subs|
    ensures |Message(h, subs[..n])| <= |Message(h, subs)|
    ensures ParseFrom(Message(h, subs), |Message(h, subs[..n])|) == (AllSent(subs[n..]), |Message(h, subs)|) <==>
            AllSurvive(subs[n..])
    decreases |subs| - n
  {
    hide Encode, ParseFrom, Framed, Sent, Survives;
    MessagesGrow(h, subs, n);
    if n < |subs| {
      assert subs[..n + 1][..n] == subs[..n];
      MessagesGrow(h, subs, n + 1);
      ParsesAppendedIff(Message(h, subs), Message(h, subs[..n]), subs[n]);
      TailReadIff(h, subs, n + 1);
      assert subs[n..] == [subs[n]] + subs[n + 1..];
      assert AllSent(subs[n..]) == [Sent(subs[n])] + AllSent(subs[n + 1..]);
      SameTail(Sent(subs[n]), ParseFrom(Message(h, subs), |Message(h, subs[..n + 1])|).0, AllSent(subs[n + 1..]));
    } else {
      assert subs[..n] == subs && AllSent(subs[n..]) == [];
      ParsesEnd(Message(h, subs));
    }
  }

  lemma SameTail<T>(x: T, a: seq<T>, b: seq<T>)
    ensures [x] + a == [x] + b <==> a == b
  {
    assert ([x] + a)[1..] == a && ([x] + b)[1..] == b;
  }

  /** A message, with any flags, is parsed as it was written, up to its end, if and only if every submessage survives.
      */
  lemma MessageReadIff(h: MessageHeader, subs: seq<Submessage>)
    ensures var m := Message(h, subs);
            && GetHeader(m, 0) == Got(Received(h), |Message(h, [])|) && |Message(h, [])| <= |m|
            && (ParseFrom(m, |Message(h, [])|) == (AllSent(subs), |m|) <==> AllSurvive(subs))
  {
    hide Encode, Framed, GetHeader, ParseFrom, Survives, Sent;
    var m := Message(h, subs);
    MessagesGrow(h, subs, 0);
    assert subs[..0] == [] && subs[0..] == subs;
    assert Holds(m, 0, Encode(HeaderItems(h), 0));
    GetsHeader(m, h);
    TailReadIff(h, subs, 0);
  }

  /** A heartbeat for message 1 whose flags announce the other byte order is not read as it was written. */
  lemma ClearedFlagMisreads(h: MessageHeader, stream: byte)
    ensures var subs := [Submessage(0, Heartbeat(1, 1, stream))];
            var m := Message(h, subs);
            |Message(h, [])| <= |m| && ParseFrom(m, |Message(h, [])|) != (AllSent(subs), |m|)
  {
    hide Message, ParseFrom, AllSent, GetHeader, Survives;
    var subs := [Submessage(0, Heartbeat(1, 1, stream))];
    MessageReadIff(h, subs);
    HeartbeatIsUneven(stream);
    assert subs[0] in subs;
  }

  lemma HeartbeatIsUneven(stream: byte)
    ensures !Survives(Submessage(0, Heartbeat(1, 1, stream)))
  {
  }
}
