/** The `getCdrSerializedSize` functions (src/cpp/types/XRCETypes.cpp): accumulators that must agree with the
    serializers. */
module PayloadSizes {

  import opened Cdrs
  import opened Payloads

  method RequestSize(r: Request, initial: nat) returns (size: nat)
    ensures size == |Encode(RequestItems(r), initial)|
  {
    var current := initial;
    current := current + 2 + Pad(current, 1);
    current := current + 2 + Pad(current, 1);
    size := current - initial;
    EncodeTwo(Raw(r.requestId), Raw(r.objectId), initial);
  }

  method ResultSize(r: ResultStatus, initial: nat) returns (size: nat)
    ensures size == |Encode(ResultItems(r), initial)|
  {
    var current := initial;
    current := current + 1 + Pad(current, 1);
    current := current + 1 + Pad(current, 1);
    size := current - initial;
    EncodeTwo(U8(r.status), U8(r.implementation), initial);
  }

  method ReplySize(r: Reply, initial: nat) returns (size: nat)
    ensures size == |Encode(ReplyItems(r), initial)|
  {
    hide Encode;
    var request := RequestSize(r.request, initial);
    var current := initial + request;
    var result := ResultSize(r.result, current);
    current := current + result;
    size := current - initial;
    EncodeAppend(RequestItems(r.request), ResultItems(r.result), initial);
  }

  method AgentSize(a: Agent, initial: nat) returns (size: nat)
    ensures size == |Encode(AgentItems(a), initial)|
  {
    hide Encode;
    var current := initial;
    current := current + 4 + Pad(current, 1);
    current := current + 2 + Pad(current, 1);
    current := current + 2 + Pad(current, 1);
    current := current + 1 + Pad(current, 1);
    size := current - initial;
    EncodeAppend([Raw(a.cookie), Raw(a.version)], [Raw(a.vendor), FlagItem(false)], initial);
    EncodeTwo(Raw(a.cookie), Raw(a.version), initial);
    EncodeTwo(Raw(a.vendor), FlagItem(false), initial + 6);
  }

  method AddressSize(a: Address, initial: nat) returns (size: nat)
    ensures size == |Encode(AddressItems(a), initial)|
  {
    hide Encode;
    var current := initial;
    current := current + 1 + Pad(current, 1);
    match a {
      case Small(_, _) =>
        current := current + 2 + Pad(current, 1);
        current := current + 1 + Pad(current, 1);
      case Medium(_, _) =>
        current := current + 4 + Pad(current, 1);
        current := current + 2 + Pad(current, 2);
      case Large(_, _) =>
        current := current + 16 + Pad(current, 1);
        current := current + 4 + Pad(current, 4);
      case Named(value) =>
        current := current + 4 + Pad(current, 4) + |value| + 1;
    }
    size := current - initial;
    var items := AddressItems(a);
    EncodeThree(items[0], items[1], items[2], initial);
  }

  lemma {:induction false} AddressesOneMore(s: seq<Address>, n: nat)
    requires n < |s|
    ensures AddressesItems(s[..n + 1]) == AddressesItems(s[..n]) + AddressItems(s[n])
  {
    if n == 0 {
      assert s[..1][1..] == [];
    } else {
      assert s[..n + 1][1..] == s[1..][..n] && s[..n][1..] == s[1..][..n - 1];
      AddressesOneMore(s[1..], n - 1);
    }
  }

  method ActivitySize(a: Activity, initial: nat) returns (size: nat)
    ensures size == |Encode(ActivityItems(a), initial)|
  {
    hide Encode, AddressItems;
    var current := initial;
    current := current + 2 + Pad(current, 2);
    current := current + 4 + Pad(current, 4);
    ghost var fixed := [U16(a.availability), U32(|a.addresses|)];
    EncodeTwo(fixed[0], fixed[1], initial);
    assert fixed + AddressesItems(a.addresses[..0]) == fixed;
    var i := 0;
    while i < |a.addresses|
      invariant 0 <= i <= |a.addresses|
      invariant current == initial + |Encode(fixed + AddressesItems(a.addresses[..i]), initial)|
    {
      ghost var before := fixed + AddressesItems(a.addresses[..i]);
      var next := AddressSize(a.addresses[i], current);
      current := current + next;
      AddressesOneMore(a.addresses, i);
      EncodeAppend(before, AddressItems(a.addresses[i]), initial);
      assert fixed + AddressesItems(a.addresses[..i + 1]) == before + AddressItems(a.addresses[i]);
      i := i + 1;
    }
    assert a.addresses[..i] == a.addresses;
    size := current - initial;
  }

  method ObjectInfoSize(info: ObjectInfo, initial: nat) returns (size: nat)
    ensures size == |Encode(ObjectInfoItems(info), initial)|
  {
    hide Encode, AgentItems, ActivityItems;
    var current := initial;
    current := current + 1 + Pad(current, 1);
    if info.config.Some? {
      current := current + 1 + Pad(current, 1);
      var agent := AgentSize(info.config.value, current);
      current := current + agent;
      EncodeAppend([FlagItem(true), U8(OBJK_AGENT)], AgentItems(info.config.value), initial);
      EncodeTwo(FlagItem(true), U8(OBJK_AGENT), initial);
    } else {
      EncodeOne(FlagItem(false), initial);
    }
    ghost var middle := current;
    assert middle == initial + |Encode(ConfigItems(info.config), initial)|;
    current := current + 1 + Pad(current, 1);
    if info.activity.Some? {
      current := current + 1 + Pad(current, 1);
      var activity := ActivitySize(info.activity.value, current);
      current := current + activity;
      EncodeAppend([FlagItem(true), U8(OBJK_AGENT)], ActivityItems(info.activity.value), middle);
      EncodeTwo(FlagItem(true), U8(OBJK_AGENT), middle);
    } else {
      EncodeOne(FlagItem(false), middle);
    }
    size := current - initial;
    EncodeAppend(ConfigItems(info.config), ActivityOptionItems(info.activity), initial);
  }

  /** The size of a payload is what its serializer writes, wherever it starts. */
  method PayloadSize(p: Payload, initial: nat) returns (size: nat)
    ensures size == |Encode(PayloadItems(p), initial)|
  {
    hide Encode, RequestItems, ResultItems, ReplyItems, AgentItems, ObjectInfoItems;
    var current := initial;
    match p {
      case GetInfo(request, mask) =>
        var n := RequestSize(request, current);
        current := current + n;
        EncodeAppend(RequestItems(request), [U32(mask)], initial);
        EncodeOne(U32(mask), current);
        current := current + 4 + Pad(current, 4);
      case Delete(request) =>
        var n := RequestSize(request, current);
        current := current + n;
      case StatusAgent(result, agent) =>
        var n := ResultSize(result, current);
        current := current + n;
        n := AgentSize(agent, current);
        current := current + n;
        EncodeAppend(ResultItems(result), AgentItems(agent), initial);
      case Status(reply) =>
        var n := ReplySize(reply, current);
        current := current + n;
      case Info(reply, info) =>
        var n := ReplySize(reply, current);
        current := current + n;
        n := ObjectInfoSize(info, current);
        current := current + n;
        EncodeAppend(ReplyItems(reply), ObjectInfoItems(info), initial);
      case Data(request, sample) =>
        var n := RequestSize(request, current);
        current := current + n;
        EncodeAppend(RequestItems(request), [Raw(sample)], initial);
        EncodeOne(Raw(sample), current);
        RawSize(sample, current);
        current := current + |sample| + Pad(current, 1);
      case AckNack(first, bitmap, stream) =>
        current := current + 2 + Pad(current, 2);
        current := current + 2 + Pad(current, 1);
        current := current + 1 + Pad(current, 1);
        EncodeThree(U16(first), Raw(bitmap), U8(stream), initial);
      case Heartbeat(first, last, stream) =>
        current := current + 2 + Pad(current, 2);
        current := current + 2 + Pad(current, 2);
        current := current + 1 + Pad(current, 1);
        EncodeThree(U16(first), U16(last), U8(stream), initial);
    }
    size := current - initial;
  }
}
