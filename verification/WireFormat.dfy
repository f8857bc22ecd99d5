/**
 * The bytes of every message, written out: the wire format by itself, without the serializers
 * (src/cpp/types/MessageHeader.cpp:109-118, src/cpp/types/SubMessageHeader.cpp:101-106, src/cpp/types/XRCETypes.cpp).
 */
module WireFormats {

  import opened Arithmetic
  import opened Options
  import opened Words
  import opened Cdrs
  import opened Payloads
  import opened Messages

  /** A number of k bytes starts at a multiple of k, and the padding before it is as short as that allows. */
  lemma PadAligns(pos: nat, size: nat)
    requires size == 1 || size == 2 || size == 4
    ensures Pad(pos, size) == (0 - pos) % size
    ensures (pos + Pad(pos, size)) % size == 0 && Pad(pos, size) < size
  {
    var (q, r) := (pos / size, pos % size);
    var up := if r == 0 then 0 else 1;
    assert pos == q * size + r;
    assert Pad(pos, size) == up * size - r;
    UniqueRemainder(0 - pos, size, 0 - q - up, up * size - r);
    UniqueRemainder(pos + Pad(pos, size), size, q + up, 0);
  }

  function Low16(n: uint16): seq<byte> {
    [n % 0x100, n / 0x100]
  }

  function Low32(n: uint32): seq<byte> {
    [n % 0x100, n / 0x100 % 0x100, n / 0x1_0000 % 0x100, n / 0x100_0000]
  }

  /** Bytes at the next multiple of `size` behind other bytes. */
  function AtNext(before: seq<byte>, size: nat, bytes: seq<byte>): seq<byte>
    requires size == 2 || size == 4
  {
    before + seq((0 - |before|) % size, _ => 0) + bytes
  }

  function WireHeader(h: MessageHeader): seq<byte> {
    [h.session, h.stream] + Low16(h.sequence) + (if h.session < 128 then h.key else [])
  }

  function WireSubheader(id: byte, flags: byte, length: uint16): seq<byte> {
    [id, flags] + Low16(length)
  }

  function WireRequest(r: Request): seq<byte> {
    r.requestId + r.objectId
  }

  function WireReply(r: Reply): seq<byte> {
    WireRequest(r.request) + [r.result.status, r.result.implementation]
  }

  function WireAgent(a: Agent): seq<byte> {
    a.cookie + a.version + a.vendor + [0]
  }

  /** An address behind other bytes. */
  function WireAddress(before: seq<byte>, a: Address): seq<byte> {
    match a
    case Small(address, port) => before + [0] + address + [port]
    case Medium(address, port) => AtNext(before + [1] + address, 2, Low16(port))
    case Large(address, port) => AtNext(before + [2] + address, 4, Low32(port))
    case Named(value) => AtNext(before + [3], 4, Low32(|value| + 1)) + value + [0]
  }

  function WireAddresses(before: seq<byte>, s: seq<Address>): seq<byte>
    decreases |s|
  {
    if s == [] then before else WireAddresses(WireAddress(before, s[0]), s[1..])
  }

  function WireActivity(before: seq<byte>, a: Activity): seq<byte> {
    WireAddresses(AtNext(AtNext(before, 2, Low16(a.availability)), 4, Low32(|a.addresses|)), a.addresses)
  }

  function WireInfo(before: seq<byte>, info: ObjectInfo): seq<byte> {
    var config := match info.config case None => before + [0] case Some(agent) => before + [1, 0x0D] + WireAgent(agent);
    match info.activity
    case None => config + [0]
    case Some(activity) => WireActivity(config + [1, 0x0D], activity)
  }

  function WirePayload(p: Payload): seq<byte> {
    match p
    case GetInfo(request, mask) => WireRequest(request) + Low32(mask)
    case Delete(request) => WireRequest(request)
    case StatusAgent(result, agent) => [result.status, result.implementation] + WireAgent(agent)
    case Status(reply) => WireReply(reply)
    case Info(reply, info) => WireInfo(WireReply(reply), info)
    case Data(request, sample) => WireRequest(request) + sample
    case AckNack(first, bitmap, stream) => Low16(first) + bitmap + [stream]
    case Heartbeat(first, last, stream) => Low16(first) + Low16(last) + [stream]
  }

  /** `SubmessageId` of the DDS-XRCE specification. */
  function WireId(p: Payload): byte {
    match p
    case GetInfo(_, _) => 2
    case Delete(_) => 3
    case StatusAgent(_, _) => 4
    case Status(_) => 5
    case Info(_, _) => 6
    case Data(_, _) => 9
    case AckNack(_, _, _) => 10
    case Heartbeat(_, _, _) => 11
  }

  // ---------- the serializers write these bytes ----------

  /** Some items behind other bytes. */
  function Behind(before: seq<byte>, items: seq<Item>): seq<byte> {
    before + Encode(items, |before|)
  }

  lemma BehindNone(before: seq<byte>)
    ensures Behind(before, []) == before
  {
  }

  lemma BehindOne(before: seq<byte>, i: Item)
    ensures Behind(before, [i]) == match i
                                   case U8(b) => before + [b]
                                   case U16(n) => AtNext(before, 2, Low16(n))
                                   case U32(n) => AtNext(before, 4, Low32(n))
                                   case Raw(bytes) => before + bytes
  {
    EncodeOne(i, |before|);
    PadAligns(|before|, AlignmentOf(i));
    assert Zeros(0) == [];
  }

  lemma BehindAppend(before: seq<byte>, a: seq<Item>, b: seq<Item>)
    ensures Behind(before, a + b) == Behind(Behind(before, a), b)
  {
    hide Encode;
    EncodeAppend(a, b, |before|);
  }

  lemma BehindTwo(before: seq<byte>, a: Item, b: Item)
    ensures Behind(before, [a, b]) == Behind(Behind(before, [a]), [b])
  {
    hide Encode;
    assert [a, b] == [a] + [b];
    BehindAppend(before, [a], [b]);
  }

  lemma BehindThree(before: seq<byte>, a: Item, b: Item, c: Item)
    ensures Behind(before, [a, b, c]) == Behind(Behind(Behind(before, [a]), [b]), [c])
  {
    hide Encode, Behind;
    assert [a, b, c] == [a, b] + [c];
    BehindAppend(before, [a, b], [c]);
    BehindTwo(before, a, b);
  }

  lemma WiresHeader(h: MessageHeader)
    ensures Encode(HeaderItems(h), 0) == WireHeader(h)
  {
    hide Encode, Behind, AtNext, Low16;
    var fixed := [U8(h.session), U8(h.stream), U16(h.sequence)];
    var keyless := [h.session, h.stream] + Low16(h.sequence);
    WiresThree([], h.session, h.stream, h.sequence);
    assert [] + [h.session, h.stream] + Low16(h.sequence) == keyless;
    BehindAppend([], fixed, if Keyed(h) then [Raw(h.key)] else []);
    BehindOne(keyless, Raw(h.key));
    BehindNone(keyless);
    BehindNothing(HeaderItems(h));
    assert keyless + [] == keyless;
  }

  /** Two octets and a number of two bytes leave no gap at an even position. */
  lemma WiresThree(before: seq<byte>, a: byte, b: byte, n: uint16)
    requires |before| % 2 == 0
    ensures Behind(before, [U8(a), U8(b), U16(n)]) == before + [a, b] + Low16(n)
  {
    hide Encode, Behind, AtNext, Low16;
    BehindThree(before, U8(a), U8(b), U16(n));
    BehindOne(before, U8(a));
    BehindOne(before + [a], U8(b));
    assert before + [a] + [b] == before + [a, b];
    BehindOne(before + [a, b], U16(n));
    NoGap(before + [a, b], Low16(n));
  }

  lemma NoGap(before: seq<byte>, bytes: seq<byte>)
    requires |before| % 2 == 0
    ensures AtNext(before, 2, bytes) == before + bytes
  {
    assert seq((0 - |before|) % 2, _ => 0) == [];
    assert before + [] == before;
  }

  lemma BehindNothing(items: seq<Item>)
    ensures Behind([], items) == Encode(items, 0)
  {
    hide Encode;
  }

  lemma WiresSubheader(s: Subheader, before: seq<byte>)
    requires |before| % 4 == 0
    ensures Behind(before, SubheaderItems(s)) == before + WireSubheader(s.id, s.flags, s.length)
  {
    hide Encode, Behind, Low16;
    ParityIs(|before|, |before| / 4, 0);
    WiresThree(before, s.id, s.flags, s.length);
    Associative(before, [s.id, s.flags], Low16(s.length));
  }

  lemma WiresRequest(r: Request, before: seq<byte>)
    ensures Behind(before, RequestItems(r)) == before + WireRequest(r)
  {
    hide Encode, Behind;
    BehindTwo(before, Raw(r.requestId), Raw(r.objectId));
    BehindOne(before, Raw(r.requestId));
    BehindOne(before + r.requestId, Raw(r.objectId));
  }

  lemma WiresResult(r: ResultStatus, before: seq<byte>)
    ensures Behind(before, ResultItems(r)) == before + [r.status, r.implementation]
  {
    hide Encode, Behind;
    BehindTwo(before, U8(r.status), U8(r.implementation));
    BehindOne(before, U8(r.status));
    BehindOne(before + [r.status], U8(r.implementation));
  }

  lemma WiresReply(r: Reply, before: seq<byte>)
    ensures Behind(before, ReplyItems(r)) == before + WireReply(r)
  {
    hide Encode, Behind;
    BehindAppend(before, RequestItems(r.request), ResultItems(r.result));
    WiresRequest(r.request, before);
    WiresResult(r.result, before + WireRequest(r.request));
  }

  lemma WiresAgent(a: Agent, before: seq<byte>)
    ensures Behind(before, AgentItems(a)) == before + WireAgent(a)
  {
    hide Encode, Behind;
    BehindAppend(before, [Raw(a.cookie), Raw(a.version)], [Raw(a.vendor), FlagItem(false)]);
    BehindTwo(before, Raw(a.cookie), Raw(a.version));
    BehindOne(before, Raw(a.cookie));
    BehindOne(before + a.cookie, Raw(a.version));
    var middle := before + a.cookie + a.version;
    BehindTwo(middle, Raw(a.vendor), FlagItem(false));
    BehindOne(middle, Raw(a.vendor));
    BehindOne(middle + a.vendor, FlagItem(false));
  }

  lemma WiresAddress(a: Address, before: seq<byte>)
    ensures Behind(before, AddressItems(a)) == WireAddress(before, a)
  {
    hide Encode, Behind, AtNext, Low16, Low32;
    var items := AddressItems(a);
    BehindThree(before, items[0], items[1], items[2]);
    BehindOne(before, items[0]);
    var format := before + [items[0].octet];
    BehindOne(format, items[1]);
    BehindOne(Behind(format, [items[1]]), items[2]);
    if a.Named? {
      Associative(AtNext(format, 4, Low32(|a.value| + 1)), a.value, [0]);
    }
  }

  lemma {:induction false} WiresAddresses(s: seq<Address>, before: seq<byte>)
    ensures Behind(before, AddressesItems(s)) == WireAddresses(before, s)
    decreases |s|
  {
    hide Encode, Behind, WireAddress, AddressItems;
    if s == [] {
      BehindNone(before);
    } else {
      BehindAppend(before, AddressItems(s[0]), AddressesItems(s[1..]));
      WiresAddress(s[0], before);
      WiresAddresses(s[1..], WireAddress(before, s[0]));
    }
  }

  lemma WiresActivity(a: Activity, before: seq<byte>)
    ensures Behind(before, ActivityItems(a)) == WireActivity(before, a)
  {
    hide Encode, Behind, AtNext, Low16, Low32, WireAddresses, AddressesItems;
    var fixed := [U16(a.availability), U32(|a.addresses|)];
    BehindAppend(before, fixed, AddressesItems(a.addresses));
    BehindTwo(before, fixed[0], fixed[1]);
    BehindOne(before, fixed[0]);
    var middle := AtNext(before, 2, Low16(a.availability));
    BehindOne(middle, fixed[1]);
    WiresAddresses(a.addresses, AtNext(middle, 4, Low32(|a.addresses|)));
  }

  lemma WiresFlags(before: seq<byte>)
    ensures Behind(before, [FlagItem(false)]) == before + [0]
    ensures Behind(before, [FlagItem(true), U8(OBJK_AGENT)]) == before + [1, 0x0D]
  {
    hide Encode, Behind;
    BehindOne(before, FlagItem(false));
    BehindTwo(before, FlagItem(true), U8(OBJK_AGENT));
    BehindOne(before, FlagItem(true));
    BehindOne(before + [1], U8(OBJK_AGENT));
  }

  lemma WiresConfig(config: Option<Agent>, before: seq<byte>)
    ensures Behind(before, ConfigItems(config)) ==
            match config case None => before + [0] case Some(agent) => before + [1, 0x0D] + WireAgent(agent)
  {
    hide Encode, Behind, AgentItems, FlagItem;
    WiresFlags(before);
    if config.Some? {
      BehindAppend(before, [FlagItem(true), U8(OBJK_AGENT)], AgentItems(config.value));
      WiresAgent(config.value, before + [1, 0x0D]);
    }
  }

  lemma WiresInfo(info: ObjectInfo, before: seq<byte>)
    ensures Behind(before, ObjectInfoItems(info)) == WireInfo(before, info)
  {
    hide Encode, Behind, ConfigItems, ActivityItems, WireActivity, FlagItem, WireAgent;
    BehindAppend(before, ConfigItems(info.config), ActivityOptionItems(info.activity));
    WiresConfig(info.config, before);
    var middle := Behind(before, ConfigItems(info.config));
    WiresFlags(middle);
    if info.activity.Some? {
      BehindAppend(middle, [FlagItem(true), U8(OBJK_AGENT)], ActivityItems(info.activity.value));
      WiresActivity(info.activity.value, middle + [1, 0x0D]);
    }
  }

  lemma WiresNumbered(p: Payload)
    requires p.AckNack? || p.Heartbeat?
    ensures Behind([], PayloadItems(p)) == WirePayload(p)
  {
    hide Encode, Behind;
    var items := PayloadItems(p);
    BehindThree([], items[0], items[1], items[2]);
    BehindOne([], items[0]);
    var first := Low16(items[0].half);
    assert Behind([], [items[0]]) == first;
    BehindOne(first, items[1]);
    BehindOne(Behind(first, [items[1]]), items[2]);
  }

  lemma WiresGetInfo(request: Request, mask: uint32)
    ensures Behind([], RequestItems(request) + [U32(mask)]) == WireRequest(request) + Low32(mask)
  {
    hide Encode, Behind, Low32;
    BehindAppend([], RequestItems(request), [U32(mask)]);
    WiresRequest(request, []);
    assert [] + WireRequest(request) == WireRequest(request);
    BehindOne(WireRequest(request), U32(mask));
  }

  lemma WiresData(request: Request, sample: seq<byte>)
    ensures Behind([], RequestItems(request) + [Raw(sample)]) == WireRequest(request) + sample
  {
    hide Encode, Behind;
    BehindAppend([], RequestItems(request), [Raw(sample)]);
    WiresRequest(request, []);
    assert [] + WireRequest(request) == WireRequest(request);
    BehindOne(WireRequest(request), Raw(sample));
  }

  /** Every payload is serialized to its bytes of the wire format, with its id. */
  lemma PayloadOnWire(p: Payload)
    ensures Encode(PayloadItems(p), 0) == WirePayload(p) && p.Id() == WireId(p)
  {
    hide Encode, Behind, RequestItems, ResultItems, ReplyItems, AgentItems, ObjectInfoItems;
    hide WireRequest, WireReply, WireAgent, WireInfo;
    BehindNothing(PayloadItems(p));
    match p
    case GetInfo(request, mask) =>
      WiresGetInfo(request, mask);
    case Delete(request) =>
      WiresRequest(request, []);
      assert [] + WireRequest(request) == WireRequest(request);
    case StatusAgent(result, agent) =>
      BehindAppend([], ResultItems(result), AgentItems(agent));
      WiresResult(result, []);
      WiresAgent(agent, [result.status, result.implementation]);
      assert [] + [result.status, result.implementation] == [result.status, result.implementation];
    case Status(reply) =>
      WiresReply(reply, []);
      assert [] + WireReply(reply) == WireReply(reply);
    case Info(reply, info) =>
      BehindAppend([], ReplyItems(reply), ObjectInfoItems(info));
      WiresReply(reply, []);
      assert [] + WireReply(reply) == WireReply(reply);
      WiresInfo(info, WireReply(reply));
    case Data(request, sample) =>
      WiresData(request, sample);
    case AckNack(_, _, _) =>
      WiresNumbered(p);
    case Heartbeat(_, _, _) =>
      WiresNumbered(p);
  }

  /** The subheader and the payload of a submessage. */
  function WireSubmessage(s: Submessage): seq<byte> {
    WireSubheader(WireId(s.payload), s.flags, |WirePayload(s.payload)| % 0x1_0000) + WirePayload(s.payload)
  }

  lemma HeaderIsAligned(h: MessageHeader)
    ensures |WireHeader(h)| == (if h.session < 128 then 8 else 4) && |WireHeader(h)| % 4 == 0
  {
  }

  /** A raw payload behind a message that ends at a multiple of four. */
  lemma FramedRawOnWire(bytes: seq<byte>, sub: Subheader, payload: seq<byte>)
    requires |bytes| % 4 == 0
    ensures FramedRaw(bytes, sub, payload) == bytes + (WireSubheader(sub.id, sub.flags, sub.length) + payload)
  {
    hide Encode, SubheaderItems, WireSubheader, Behind;
    PadAligns(|bytes|, 4);
    assert bytes + Zeros(0) == bytes;
    var middle := bytes + WireSubheader(sub.id, sub.flags, sub.length);
    BehindAppend(bytes, SubheaderItems(sub), [Raw(payload)]);
    WiresSubheader(sub, bytes);
    BehindOne(middle, Raw(payload));
    BehindIs(bytes, SubheaderItems(sub) + [Raw(payload)]);
    Associative(bytes, WireSubheader(sub.id, sub.flags, sub.length), payload);
  }

  lemma BehindIs(before: seq<byte>, items: seq<Item>)
    ensures Behind(before, items) == before + Encode(items, |before|)
  {
  }

  /** One more submessage starts at the next multiple of four. */
  lemma FramedOnWire(bytes: seq<byte>, s: Submessage)
    ensures Framed(bytes, s) == AtNext(bytes, 4, WireSubmessage(s))
  {
    hide Encode, SubheaderItems, PayloadItems, WirePayload, WireSubheader;
    var start := bytes + Zeros(Pad(|bytes|, 4));
    PadAligns(|bytes|, 4);
    PayloadOnWire(s.payload);
    WiresSubheader(SubheaderOf(s), start);
    var middle := start + WireSubheader(SubheaderOf(s).id, SubheaderOf(s).flags, SubheaderOf(s).length);
    EncodeAppend(SubheaderItems(SubheaderOf(s)), PayloadItems(s.payload), |start|);
    EncodedSubheader(SubheaderOf(s), |start|);
    EncodeFromMultipleOfFour(PayloadItems(s.payload), |start| + 4, 0);
    assert Framed(bytes, s) == middle + WirePayload(s.payload) by {
      Associative(start, Encode(SubheaderItems(SubheaderOf(s)), |start|), WirePayload(s.payload));
    }
  }

  /** The bytes of a message: its header, and every submessage at the next multiple of four. */
  function WireMessage(h: MessageHeader, subs: seq<Submessage>): seq<byte> {
    if subs == [] then WireHeader(h)
    else AtNext(WireMessage(h, subs[..|subs| - 1]), 4, WireSubmessage(subs[|subs| - 1]))
  }

  /** Every message is its bytes of the wire format. */
  lemma {:induction false} MessageOnWire(h: MessageHeader, subs: seq<Submessage>)
    ensures Message(h, subs) == WireMessage(h, subs)
  {
    hide Encode, Framed, AtNext, WireSubmessage, WireHeader;
    if subs == [] {
      WiresHeader(h);
    } else {
      MessageOnWire(h, subs[..|subs| - 1]);
      FramedOnWire(Message(h, subs[..|subs| - 1]), subs[|subs| - 1]);
    }
  }
}
