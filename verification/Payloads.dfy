/** The submessage payloads that the Agent builds, and two that it receives (src/cpp/types/XRCETypes.cpp). */
module Payloads {

  import opened Options
  import opened Words
  import opened Cdrs

  type Octets2 = s: seq<byte> | |s| == 2 witness [0, 0]
  type Octets4 = s: seq<byte> | |s| == 4 witness [0, 0, 0, 0]
  type Octets16 = s: seq<byte> | |s| == 16 witness Zeros(16)

  /** A string as the serializer sees it, that is, up to its terminating NUL. */
  type Text = s: seq<byte> | 0 !in s && |s| < 0xFFFF_FFFF witness []

  const OBJK_AGENT := 0x0D

  datatype Request = Request(requestId: Octets2, objectId: Octets2)
  datatype ResultStatus = ResultStatus(status: byte, implementation: byte)
  datatype Reply = Reply(request: Request, result: ResultStatus)

  /** `AGENT_Representation` without properties. */
  datatype Agent = Agent(cookie: Octets4, version: Octets2, vendor: Octets2)

  datatype Address =
    | Small(address2: Octets2, port8: byte)
    | Medium(address4: Octets4, port16: uint16)
    | Large(address16: Octets16, port32: uint32)
    | Named(value: Text)

  type Addresses = s: seq<Address> | |s| < 0x1_0000_0000 witness []

  datatype Activity = Activity(availability: uint16, addresses: Addresses)
  datatype ObjectInfo = ObjectInfo(config: Option<Agent>, activity: Option<Activity>)

  datatype Payload =
    | GetInfo(request: Request, mask: uint32)
    | Delete(request: Request)
    | StatusAgent(result: ResultStatus, agent: Agent)
    | Status(reply: Reply)
    | Info(reply: Reply, info: ObjectInfo)
    | Data(request: Request, sample: seq<byte>)
    | AckNack(firstUnacked: uint16, bitmap: Octets2, stream: byte)
    | Heartbeat(first: uint16, last: uint16, stream: byte)
  {
    /** `SubmessageId`. */
    function Id(): byte {
      match this
      case GetInfo(_, _) => 2
      case Delete(_) => 3
      case StatusAgent(_, _) => 4
      case Status(_) => 5
      case Info(_, _) => 6
      case Data(_, _) => 9
      case AckNack(_, _, _) => 10
      case Heartbeat(_, _, _) => 11
    }
  }

  // ---------- the serializers: what each `serialize` puts, in order ----------

  function RequestItems(r: Request): seq<Item> {
    [Raw(r.requestId), Raw(r.objectId)]
  }

  function ResultItems(r: ResultStatus): seq<Item> {
    [U8(r.status), U8(r.implementation)]
  }

  function ReplyItems(r: Reply): seq<Item> {
    RequestItems(r.request) + ResultItems(r.result)
  }

  function FlagItem(flag: bool): Item {
    U8(if flag then 1 else 0)
  }

  function AgentItems(a: Agent): seq<Item> {
    [Raw(a.cookie), Raw(a.version)] + [Raw(a.vendor), FlagItem(false)]
  }

  function AddressItems(a: Address): seq<Item> {
    match a
    case Small(address, port) => [U8(0), Raw(address), U8(port)]
    case Medium(address, port) => [U8(1), Raw(address), U16(port)]
    case Large(address, port) => [U8(2), Raw(address), U32(port)]
    case Named(value) => [U8(3), U32(|value| + 1), Raw(value + [0])]
  }

  function AddressesItems(s: seq<Address>): seq<Item> {
    if s == [] then [] else AddressItems(s[0]) + AddressesItems(s[1..])
  }

  function ActivityItems(a: Activity): seq<Item> {
    [U16(a.availability), U32(|a.addresses|)] + AddressesItems(a.addresses)
  }

  function ConfigItems(config: Option<Agent>): seq<Item> {
    match config
    case None => [FlagItem(false)]
    case Some(agent) => [FlagItem(true), U8(OBJK_AGENT)] + AgentItems(agent)
  }

  function ActivityOptionItems(activity: Option<Activity>): seq<Item> {
    match activity
    case None => [FlagItem(false)]
    case Some(a) => [FlagItem(true), U8(OBJK_AGENT)] + ActivityItems(a)
  }

  function ObjectInfoItems(info: ObjectInfo): seq<Item> {
    ConfigItems(info.config) + ActivityOptionItems(info.activity)
  }

  function PayloadItems(p: Payload): seq<Item> {
    match p
    case GetInfo(request, mask) => RequestItems(request) + [U32(mask)]
    case Delete(request) => RequestItems(request)
    case StatusAgent(result, agent) => ResultItems(result) + AgentItems(agent)
    case Status(reply) => ReplyItems(reply)
    case Info(reply, info) => ReplyItems(reply) + ObjectInfoItems(info)
    case Data(request, sample) => RequestItems(request) + [Raw(sample)]
    case AckNack(first, bitmap, stream) => [U16(first), Raw(bitmap), U8(stream)]
    case Heartbeat(first, last, stream) => [U16(first), U16(last), U8(stream)]
  }

  // ---------- the deserializers ----------

  function GetRequest(buf: seq<byte>, pos: nat): (got: Got<Request>)
    ensures got.Within(pos, |buf|)
  {
    var (requestId, p) :- GetRaw(buf, pos, 2);
    var (objectId, q) :- GetRaw(buf, p, 2);
    Got(Request(requestId, objectId), q)
  }

  function GetResult(buf: seq<byte>, pos: nat): (got: Got<ResultStatus>)
    ensures got.Within(pos, |buf|)
  {
    var (status, p) :- Get8(buf, pos);
    var (implementation, q) :- Get8(buf, p);
    Got(ResultStatus(status, implementation), q)
  }

  function GetReply(buf: seq<byte>, pos: nat): (got: Got<Reply>)
    ensures got.Within(pos, |buf|)
  {
    var (request, p) :- GetRequest(buf, pos);
    var (result, q) :- GetResult(buf, p);
    Got(Reply(request, result), q)
  }

  function GetFlag(buf: seq<byte>, pos: nat): (got: Got<bool>)
    ensures got.Within(pos, |buf|)
  {
    var (b, p) :- Get8(buf, pos);
    if b <= 1 then Got(b == 1, p) else Other(pos)
  }

  function GetAgent(buf: seq<byte>, pos: nat): (got: Got<Agent>)
    ensures got.Within(pos, |buf|)
  {
    var (cookie, p) :- GetRaw(buf, pos, 4);
    var (version, q) :- GetRaw(buf, p, 2);
    var (vendor, r) :- GetRaw(buf, q, 2);
    var (properties, s) :- GetFlag(buf, r);
    if properties then Other(r) else Got(Agent(cookie, version, vendor), s)
  }

  /** A string is its length, then its characters; a NUL at the end is not kept, and one inside is outside this model.
      */
  function GetText(buf: seq<byte>, pos: nat, little: bool): (got: Got<Text>)
    ensures got.Within(pos, |buf|)
  {
    var (n, p) :- Get32(buf, pos, little);
    var (chars, q) :- GetRaw(buf, p, n);
    var value := if n > 0 && chars[n - 1] == 0 then chars[..n - 1] else chars;
    if 0 in value || |value| == 0xFFFF_FFFF then Other(p) else Got(value, q)
  }

  function GetAddress(buf: seq<byte>, pos: nat, little: bool): (got: Got<Address>)
    ensures got.Within(pos, |buf|)
  {
    var (format, p) :- Get8(buf, pos);
    match format
    case 0 =>
      var (address, q) :- GetRaw(buf, p, 2);
      var (port, r) :- Get8(buf, q);
      Got(Small(address, port), r)
    case 1 =>
      var (address, q) :- GetRaw(buf, p, 4);
      var (port, r) :- Get16(buf, q, little);
      Got(Medium(address, port), r)
    case 2 =>
      var (address, q) :- GetRaw(buf, p, 16);
      var (port, r) :- Get32(buf, q, little);
      Got(Large(address, port), r)
    case 3 =>
      var (value, q) :- GetText(buf, p, little);
      Got(Named(value), q)
    case _ => Other(pos)
  }

  function GetAddresses(buf: seq<byte>, pos: nat, n: nat, little: bool): (got: Got<seq<Address>>)
    ensures got.Within(pos, |buf|)
    ensures got.Got? ==> |got.value| == n
    decreases n
  {
    if n == 0 then Got([], pos)
    else
      var (first, p) :- GetAddress(buf, pos, little);
      var (rest, q) :- GetAddresses(buf, p, n - 1, little);
      Got([first] + rest, q)
  }

  function GetActivity(buf: seq<byte>, pos: nat, little: bool): (got: Got<Activity>)
    ensures got.Within(pos, |buf|)
  {
    var (availability, p) :- Get16(buf, pos, little);
    var (n, q) :- Get32(buf, p, little);
    var (addresses, r) :- GetAddresses(buf, q, n, little);
    Got(Activity(availability, addresses), r)
  }

  function GetConfigOption(buf: seq<byte>, pos: nat): (got: Got<Option<Agent>>)
    ensures got.Within(pos, |buf|)
  {
    var (present, p) :- GetFlag(buf, pos);
    if !present then Got(None, p)
    else
      var (kind, q) :- Get8(buf, p);
      if kind != OBJK_AGENT then Other(p)
      else
        var (agent, r) :- GetAgent(buf, q);
        Got(Some(agent), r)
  }

  function GetActivityOption(buf: seq<byte>, pos: nat, little: bool): (got: Got<Option<Activity>>)
    ensures got.Within(pos, |buf|)
  {
    var (present, p) :- GetFlag(buf, pos);
    if !present then Got(None, p)
    else
      var (kind, q) :- Get8(buf, p);
      if kind != OBJK_AGENT then Other(p)
      else
        var (activity, r) :- GetActivity(buf, q, little);
        Got(Some(activity), r)
  }

  function GetObjectInfo(buf: seq<byte>, pos: nat, little: bool): (got: Got<ObjectInfo>)
    ensures got.Within(pos, |buf|)
  {
    var (config, p) :- GetConfigOption(buf, pos);
    var (activity, q) :- GetActivityOption(buf, p, little);
    Got(ObjectInfo(config, activity), q)
  }

  /** `get_payload`, with the payload type that the submessage id stands for.  A sample takes as many bytes as the
      length in the subheader leaves for it; the source cannot allocate one for a length below that of the request. */
  function GetPayload(buf: seq<byte>, pos: nat, id: byte, length: uint16, little: bool): (got: Got<Payload>)
    ensures got.Within(pos, |buf|)
  {
    match id
    case 2 =>
      var (request, p) :- GetRequest(buf, pos);
      var (mask, q) :- Get32(buf, p, little);
      Got(GetInfo(request, mask), q)
    case 3 =>
      var (request, p) :- GetRequest(buf, pos);
      Got(Delete(request), p)
    case 4 =>
      var (result, p) :- GetResult(buf, pos);
      var (agent, q) :- GetAgent(buf, p);
      Got(StatusAgent(result, agent), q)
    case 5 =>
      var (reply, p) :- GetReply(buf, pos);
      Got(Status(reply), p)
    case 6 =>
      var (reply, p) :- GetReply(buf, pos);
      var (info, q) :- GetObjectInfo(buf, p, little);
      Got(Info(reply, info), q)
    case 9 =>
      if length < 4 then Other(pos)
      else
        var (request, p) :- GetRequest(buf, pos);
        var (sample, q) :- GetRaw(buf, p, length - 4);
        Got(Data(request, sample), q)
    case 10 =>
      var (first, p) :- Get16(buf, pos, little);
      var (bitmap, q) :- GetRaw(buf, p, 2);
      var (stream, r) :- Get8(buf, q);
      Got(AckNack(first, bitmap, stream), r)
    case 11 =>
      var (first, p) :- Get16(buf, pos, little);
      var (last, q) :- Get16(buf, p, little);
      var (stream, r) :- Get8(buf, q);
      Got(Heartbeat(first, last, stream), r)
    case _ => Other(pos)
  }

  // ---------- each deserializer undoes its serializer ----------

  lemma GetsRequest(buf: seq<byte>, pos: nat, r: Request)
    requires Holds(buf, pos, Encode(RequestItems(r), pos))
    ensures GetRequest(buf, pos) == Got(r, pos + |Encode(RequestItems(r), pos)|)
  {
    hide EncodeItem, Encode, Holds;
    HoldsTwo(buf, pos, Raw(r.requestId), Raw(r.objectId));
    GetsRaw(buf, pos, r.requestId);
    GetsRaw(buf, GetRaw(buf, pos, 2).pos, r.objectId);
  }

  lemma GetsResult(buf: seq<byte>, pos: nat, r: ResultStatus)
    requires Holds(buf, pos, Encode(ResultItems(r), pos))
    ensures GetResult(buf, pos) == Got(r, pos + |Encode(ResultItems(r), pos)|)
  {
    hide EncodeItem, Encode, Holds;
    HoldsTwo(buf, pos, U8(r.status), U8(r.implementation));
    Gets8(buf, pos, r.status);
    Gets8(buf, Get8(buf, pos).pos, r.implementation);
  }

  lemma GetsReply(buf: seq<byte>, pos: nat, r: Reply)
    requires Holds(buf, pos, Encode(ReplyItems(r), pos))
    ensures GetReply(buf, pos) == Got(r, pos + |Encode(ReplyItems(r), pos)|)
  {
    hide EncodeItem, Encode, Holds, GetRequest, GetResult;
    HoldsParts(buf, pos, RequestItems(r.request), ResultItems(r.result));
    GetsRequest(buf, pos, r.request);
    GetsResult(buf, GetRequest(buf, pos).pos, r.result);
  }

  lemma GetsAgent(buf: seq<byte>, pos: nat, a: Agent)
    requires Holds(buf, pos, Encode(AgentItems(a), pos))
    ensures GetAgent(buf, pos) == Got(a, pos + |Encode(AgentItems(a), pos)|)
  {
    hide EncodeItem, Encode, Holds, GetRaw;
    HoldsParts(buf, pos, [Raw(a.cookie), Raw(a.version)], [Raw(a.vendor), FlagItem(false)]);
    HoldsTwo(buf, pos, Raw(a.cookie), Raw(a.version));
    GetsRaw(buf, pos, a.cookie);
    var p := GetRaw(buf, pos, 4).pos;
    GetsRaw(buf, p, a.version);
    var q := GetRaw(buf, p, 2).pos;
    HoldsTwo(buf, q, Raw(a.vendor), FlagItem(false));
    GetsRaw(buf, q, a.vendor);
    Gets8(buf, GetRaw(buf, q, 2).pos, 0);
  }

  lemma GetsText(buf: seq<byte>, pos: nat, t: Text)
    requires Holds(buf, pos, EncodeItem(U32(|t| + 1), pos))
    requires var next := pos + |EncodeItem(U32(|t| + 1), pos)|; Holds(buf, next, EncodeItem(Raw(t + [0]), next))
    ensures var next := pos + |EncodeItem(U32(|t| + 1), pos)|;
            GetText(buf, pos, true) == Got(t, next + |EncodeItem(Raw(t + [0]), next)|)
  {
    hide EncodeItem, Holds, Get32, GetRaw;
    Gets32(buf, pos, |t| + 1, true);
    GetsRaw(buf, pos + |EncodeItem(U32(|t| + 1), pos)|, t + [0]);
    assert (t + [0])[..|t|] == t;
  }

  lemma GetsAddress(buf: seq<byte>, pos: nat, a: Address)
    requires Holds(buf, pos, Encode(AddressItems(a), pos))
    ensures GetAddress(buf, pos, true) == Got(a, pos + |Encode(AddressItems(a), pos)|)
  {
    hide EncodeItem, Encode, Holds, Get8, Get16, Get32, GetRaw, GetText;
    var items := AddressItems(a);
    HoldsThree(buf, pos, items[0], items[1], items[2]);
    var next := pos + |EncodeItem(items[0], pos)|;
    var last := next + |EncodeItem(items[1], next)|;
    Gets8(buf, pos, items[0].octet);
    match a
    case Small(address, port) =>
      GetsRaw(buf, next, address);
      Gets8(buf, last, port);
    case Medium(address, port) =>
      GetsRaw(buf, next, address);
      Gets16(buf, last, port, true);
    case Large(address, port) =>
      GetsRaw(buf, next, address);
      Gets32(buf, last, port, true);
    case Named(value) =>
      GetsText(buf, next, value);
  }

  lemma {:induction false} GetsAddresses(buf: seq<byte>, pos: nat, s: seq<Address>)
    requires Holds(buf, pos, Encode(AddressesItems(s), pos))
    ensures GetAddresses(buf, pos, |s|, true) == Got(s, pos + |Encode(AddressesItems(s), pos)|)
    decreases |s|
  {
    hide EncodeItem, Encode, Holds, GetAddress;
    if s != [] {
      HoldsParts(buf, pos, AddressItems(s[0]), AddressesItems(s[1..]));
      GetsAddress(buf, pos, s[0]);
      GetsAddresses(buf, GetAddress(buf, pos, true).pos, s[1..]);
      assert [s[0]] + s[1..] == s;
    } else {
      EncodeNone(pos);
    }
  }

  lemma GetsActivity(buf: seq<byte>, pos: nat, a: Activity)
    requires Holds(buf, pos, Encode(ActivityItems(a), pos))
    ensures GetActivity(buf, pos, true) == Got(a, pos + |Encode(ActivityItems(a), pos)|)
  {
    hide EncodeItem, Encode, Holds, Get16, Get32, GetAddresses;
    HoldsParts(buf, pos, [U16(a.availability), U32(|a.addresses|)], AddressesItems(a.addresses));
    HoldsTwo(buf, pos, U16(a.availability), U32(|a.addresses|));
    Gets16(buf, pos, a.availability, true);
    var p := Get16(buf, pos, true).pos;
    Gets32(buf, p, |a.addresses|, true);
    GetsAddresses(buf, Get32(buf, p, true).pos, a.addresses);
  }

  lemma GetsConfigOption(buf: seq<byte>, pos: nat, config: Option<Agent>)
    requires Holds(buf, pos, Encode(ConfigItems(config), pos))
    ensures GetConfigOption(buf, pos) == Got(config, pos + |Encode(ConfigItems(config), pos)|)
  {
    hide EncodeItem, Encode, Holds, Get8, GetAgent;
    match config
    case None =>
      EncodeOne(FlagItem(false), pos);
      Gets8(buf, pos, 0);
    case Some(agent) =>
      HoldsParts(buf, pos, [FlagItem(true), U8(OBJK_AGENT)], AgentItems(agent));
      HoldsTwo(buf, pos, FlagItem(true), U8(OBJK_AGENT));
      Gets8(buf, pos, 1);
      var p := Get8(buf, pos).pos;
      Gets8(buf, p, OBJK_AGENT);
      GetsAgent(buf, Get8(buf, p).pos, agent);
  }

  lemma GetsActivityOption(buf: seq<byte>, pos: nat, activity: Option<Activity>, little: bool)
    requires Holds(buf, pos, Encode(ActivityOptionItems(activity), pos)) && (little || activity.None?)
    ensures GetActivityOption(buf, pos, little) == Got(activity, pos + |Encode(ActivityOptionItems(activity), pos)|)
  {
    hide EncodeItem, Encode, Holds, Get8, GetActivity;
    match activity
    case None =>
      EncodeOne(FlagItem(false), pos);
      Gets8(buf, pos, 0);
    case Some(a) =>
      HoldsParts(buf, pos, [FlagItem(true), U8(OBJK_AGENT)], ActivityItems(a));
      HoldsTwo(buf, pos, FlagItem(true), U8(OBJK_AGENT));
      Gets8(buf, pos, 1);
      var p := Get8(buf, pos).pos;
      Gets8(buf, p, OBJK_AGENT);
      GetsActivity(buf, Get8(buf, p).pos, a);
  }

  lemma GetsObjectInfo(buf: seq<byte>, pos: nat, info: ObjectInfo, little: bool)
    requires Holds(buf, pos, Encode(ObjectInfoItems(info), pos)) && (little || info.activity.None?)
    ensures GetObjectInfo(buf, pos, little) == Got(info, pos + |Encode(ObjectInfoItems(info), pos)|)
  {
    hide EncodeItem, Encode, Holds, GetConfigOption, GetActivityOption;
    HoldsParts(buf, pos, ConfigItems(info.config), ActivityOptionItems(info.activity));
    GetsConfigOption(buf, pos, info.config);
    GetsActivityOption(buf, GetConfigOption(buf, pos).pos, info.activity, little);
  }

  /** The length in the subheader of a payload, in sixteen bits. */
  function LengthOf(p: Payload): uint16 {
    |Encode(PayloadItems(p), 0)| % 0x1_0000
  }

  /** Sixteen bits can count the request and the sample. */
  predicate Counted(p: Payload) {
    p.Data? ==> |p.sample| + 4 <= 0xFFFF
  }

  /** With the wrong byte order, the number of addresses and the lengths of strings are misread as well. */
  predicate Readable(p: Payload, little: bool) {
    Counted(p) && (little || !(p.Info? && p.info.activity.Some?))
  }

  lemma DataLength(p: Payload, pos: nat)
    requires p.Data?
    ensures |Encode(PayloadItems(p), pos)| == |p.sample| + 4 && LengthOf(p) == (|p.sample| + 4) % 0x1_0000
  {
    DataSize(p.request, p.sample, pos);
    DataSize(p.request, p.sample, 0);
  }

  lemma DataSize(request: Request, sample: seq<byte>, pos: nat)
    ensures |Encode(RequestItems(request) + [Raw(sample)], pos)| == |sample| + 4
    ensures |Encode(RequestItems(request), pos)| == 4
  {
    hide Encode, EncodeItem;
    EncodeAppend(RequestItems(request), [Raw(sample)], pos);
    EncodeTwo(Raw(request.requestId), Raw(request.objectId), pos);
    RawSize(request.requestId, pos);
    RawSize(request.objectId, pos + 2);
    EncodeOne(Raw(sample), pos + 4);
    RawSize(sample, pos + 4);
  }

  /** A payload as it is read with one or the other byte order. */
  function Seen(p: Payload, little: bool): Payload {
    match p
    case GetInfo(request, mask) => GetInfo(request, Seen32(mask, little))
    case AckNack(first, bitmap, stream) => AckNack(Seen16(first, little), bitmap, stream)
    case Heartbeat(first, last, stream) => Heartbeat(Seen16(first, little), Seen16(last, little), stream)
    case _ => p
  }

  /** The byte order of a number does not show exactly when its bytes read the same both ways. */
  predicate Palindrome16(n: uint16) {
    n % 0x100 == n / 0x100
  }

  predicate Palindrome32(n: uint32) {
    n % 0x100 == n / 0x100_0000 && n / 0x100 % 0x100 == n / 0x1_0000 % 0x100
  }

  /** A payload survives the wrong byte order if and only if all its numbers are byte palindromes. */
  lemma SeenUnchangedIff(p: Payload, little: bool)
    requires Readable(p, little)
    ensures Seen(p, little) == p <==>
            || little
            || (match p
                case GetInfo(_, mask) => Palindrome32(mask)
                case AckNack(first, _, _) => Palindrome16(first)
                case Heartbeat(first, last, _) => Palindrome16(first) && Palindrome16(last)
                case _ => true)
  {
    if p.GetInfo? {
      Seen32Unchanged(p.mask);
    }
  }

  lemma Seen32Unchanged(n: uint32)
    ensures Seen32(n, false) == n <==> Palindrome32(n)
  {
    FourBytes(n);
  }

  lemma GetsNumbered(buf: seq<byte>, pos: nat, p: Payload, length: uint16, little: bool)
    requires p.AckNack? || p.Heartbeat?
    requires Holds(buf, pos, Encode(PayloadItems(p), pos))
    ensures GetPayload(buf, pos, p.Id(), length, little) == Got(Seen(p, little), pos + |Encode(PayloadItems(p), pos)|)
  {
    hide EncodeItem, Encode, Holds, Get8, Get16, GetRaw, Seen16;
    var items := PayloadItems(p);
    HoldsThree(buf, pos, items[0], items[1], items[2]);
    var next := pos + |EncodeItem(items[0], pos)|;
    var last := next + |EncodeItem(items[1], next)|;
    Gets16(buf, pos, items[0].half, little);
    if p.AckNack? {
      GetsRaw(buf, next, p.bitmap);
    } else {
      Gets16(buf, next, p.last, little);
    }
    Gets8(buf, last, p.stream);
  }

  /** A sample is read with the length that the subheader says, whatever it is. */
  lemma GetsData(buf: seq<byte>, pos: nat, request: Request, sample: seq<byte>, length: uint16, little: bool)
    requires Holds(buf, pos, Encode(PayloadItems(Data(request, sample)), pos))
    ensures var got := GetPayload(buf, pos, 9, length, little);
            if length == |sample| + 4 then got == Got(Data(request, sample), pos + |sample| + 4)
            else got.Got? ==> got.value != Data(request, sample)
  {
    hide Encode, EncodeItem, Holds, GetRequest;
    HoldsParts(buf, pos, RequestItems(request), [Raw(sample)]);
    DataSize(request, sample, pos);
    GetsRequest(buf, pos, request);
    EncodeOne(Raw(sample), pos + 4);
    GetsRaw(buf, pos + 4, sample);
  }

  /** Reading a payload where it was written gives it back, as the byte order shows it, and ends where it ends. */
  lemma GetsPayload(buf: seq<byte>, pos: nat, p: Payload, little: bool)
    requires Holds(buf, pos, Encode(PayloadItems(p), pos)) && Readable(p, little)
    ensures GetPayload(buf, pos, p.Id(), LengthOf(p), little) ==
            Got(Seen(p, little), pos + |Encode(PayloadItems(p), pos)|)
  {
    hide EncodeItem, Encode, Holds, GetRequest, GetResult, GetReply, GetAgent, GetObjectInfo, Get32, Seen32, LengthOf;
    match p
    case GetInfo(request, mask) =>
      HoldsParts(buf, pos, RequestItems(request), [U32(mask)]);
      GetsRequest(buf, pos, request);
      var next := GetRequest(buf, pos).pos;
      EncodeOne(U32(mask), next);
      Gets32(buf, next, mask, little);
    case Delete(request) =>
      GetsRequest(buf, pos, request);
    case StatusAgent(result, agent) =>
      HoldsParts(buf, pos, ResultItems(result), AgentItems(agent));
      GetsResult(buf, pos, result);
      GetsAgent(buf, GetResult(buf, pos).pos, agent);
    case Status(reply) =>
      GetsReply(buf, pos, reply);
    case Info(reply, info) =>
      HoldsParts(buf, pos, ReplyItems(reply), ObjectInfoItems(info));
      GetsReply(buf, pos, reply);
      GetsObjectInfo(buf, GetReply(buf, pos).pos, info, little);
    case Data(request, sample) =>
      DataLength(p, pos);
      GetsData(buf, pos, request, sample, LengthOf(p), little);
    case AckNack(_, _, _) =>
      GetsNumbered(buf, pos, p, LengthOf(p), little);
    case Heartbeat(_, _, _) =>
      GetsNumbered(buf, pos, p, LengthOf(p), little);
  }
}
