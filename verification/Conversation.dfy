/**
 * Submessages pushed with `push_submessage` on one side and parsed on the other, over whole runs
 * (OutputStream.hpp:280-378 of include/uxr/agent/client/session/stream, src/cpp/processor/Processor.cpp:96-105).
 */
module Conversations {

  import opened Words
  import opened SeqNums
  import opened Cdrs
  import opened Payloads
  import opened Messages
  import opened Fragments
  import opened ReliableStreams
  import opened EndToEnd
  import L = ReliableLinks
  import R = LinkRuns

  /** One direction of a stream: the header of its messages, and the MTU that the client asked for. */
  datatype Way = Way(base: MessageHeader, mtu: uint16)

  /** The link, and the submessages that were accepted so far. */
  datatype Talk = Talk(link: L.Link<seq<byte>>, subs: seq<Submessage>)

  datatype Act = Say(payload: Payload) | Move(event: L.Event<seq<byte>>)

  function Spoken(payload: Payload): Submessage {
    Submessage(FLAG_LITTLE_ENDIANNESS, payload)
  }

  /** The messages that `push_submessage` makes of a payload. */
  ghost function Said(w: Way, t: Talk, payload: Payload): seq<seq<byte>> {
    OnWire(Bodies(Headers(w.base), |t.link.log|, Serialized(Spoken(payload)), w.mtu))
  }

  /** Messages are pushed by `push_submessage` only, and only by calls that return. */
  ghost predicate Allowed(w: Way, t: Talk, a: Act) {
    match a
    case Say(payload) => Sendable(w.base, Spoken(payload), w.mtu)
    case Move(e) => !e.Push? && L.Enabled(t.link, e)
  }

  /** At a closed window the call gives up. */
  ghost function Next(w: Way, t: Talk, a: Act): Talk
    requires Allowed(w, t, a)
  {
    match a
    case Say(payload) =>
      if WindowOpen(t.link.sender) then Talk(R.PushAll(t.link, Said(w, t, payload)), t.subs + [Spoken(payload)]) else t
    case Move(e) => t.(link := L.Step(t.link, e))
  }

  ghost predicate Inv(w: Way, t: Talk) {
    && L.Inv(t.link)
    && t.link.log == Traffic(w.base, t.subs, w.mtu)
    && AllSendable(w.base, t.subs, w.mtu)
  }

  /** No number is reused while it is unacknowledged, and arriving packets are read right. */
  ghost predicate Proper(w: Way, t: Talk, a: Act)
    requires Allowed(w, t, a) && L.Inv(t.link)
  {
    match a
    case Say(payload) => WindowOpen(t.link.sender) ==> |t.link.log| + |Said(w, t, payload)| <= t.link.f + MAX
    case Move(e) => L.Proper(t.link, e)
  }

  lemma SpokenIsLegible(w: Way, payload: Payload)
    requires Sendable(w.base, Spoken(payload), w.mtu)
    ensures Legible(Spoken(payload))
  {
    hide Serialized, StreamHeader;
    SendablePasses(w.base, 0, Spoken(payload), w.mtu);
    if payload.Data? {
      DataSubmessageSize(payload.request, payload.sample);
    }
  }

  /** A DATA submessage takes the sample and eight bytes. */
  lemma DataSubmessageSize(request: Request, sample: seq<byte>)
    ensures |Serialized(Spoken(Data(request, sample)))| == |sample| + 8
  {
    var s := Spoken(Data(request, sample));
    hide Encode, EncodeItem, SubheaderItems;
    EncodeAppend(SubheaderItems(SubheaderOf(s)), PayloadItems(s.payload), 0);
    EncodedSubheader(SubheaderOf(s), 0);
    DataLength(s.payload, 4);
  }

  lemma SayKeepsTraffic(w: Way, t: Talk, payload: Payload)
    requires t.link.log == Traffic(w.base, t.subs, w.mtu)
    ensures R.PushAll(t.link, Said(w, t, payload)).log == Traffic(w.base, t.subs + [Spoken(payload)], w.mtu)
  {
    R.PushAllIs(t.link, Said(w, t, payload));
    TrafficAppend(w.base, t.subs, Spoken(payload), w.mtu);
  }

  lemma MoveKeepsLog(l: L.Link<seq<byte>>, e: L.Event<seq<byte>>)
    requires L.Enabled(l, e) && !e.Push?
    ensures L.Step(l, e).log == l.log
  {
  }

  /** From any state of a conversation, the next act stays in it if and only if it is proper. */
  lemma ActKeepsInvIff(w: Way, t: Talk, a: Act)
    requires Inv(w, t) && Allowed(w, t, a)
    ensures Inv(w, Next(w, t, a)) <==> Proper(w, t, a)
  {
    hide Traffic, Sendable, L.Inv, L.Proper, Said, WindowOpen, R.PushAll, L.Step;
    match a
    case Say(payload) =>
      R.PushAllKeepsIff(t.link, Said(w, t, payload));
      SayKeepsTraffic(w, t, payload);
    case Move(e) =>
      L.StepKeepsInvIff(t.link, e);
      MoveKeepsLog(t.link, e);
  }

  ghost predicate Runs(w: Way, ts: seq<Talk>, acts: seq<Act>) {
    && |ts| == |acts| + 1
    && L.Initial(ts[0].link) && ts[0].subs == []
    && (forall i :: 0 <= i < |acts| ==> Allowed(w, ts[i], acts[i]) && ts[i + 1] == Next(w, ts[i], acts[i]))
  }

  ghost predicate ProperAt(w: Way, ts: seq<Talk>, acts: seq<Act>, i: nat)
    requires Runs(w, ts, acts) && i < |acts|
  {
    L.Inv(ts[i].link) ==> Proper(w, ts[i], acts[i])
  }

  lemma StartKeeps(w: Way, t: Talk)
    requires L.Initial(t.link) && t.subs == []
    ensures Inv(w, t) && L.Calm(t.link)
  {
    L.InitialKeeps(t.link);
    assert AllSerialized([]) == [];
  }

  lemma {:induction false} RunKeepsInv(w: Way, ts: seq<Talk>, acts: seq<Act>, n: nat)
    requires Runs(w, ts, acts) && n <= |acts| && forall i :: 0 <= i < n ==> ProperAt(w, ts, acts, i)
    ensures Inv(w, ts[n])
  {
    hide Proper, Next, Allowed, L.Inv, Traffic, AllSendable;
    if n == 0 {
      StartKeeps(w, ts[0]);
    } else {
      RunKeepsInv(w, ts, acts, n - 1);
      assert ProperAt(w, ts, acts, n - 1);
      ActKeepsInvIff(w, ts[n - 1], acts[n - 1]);
    }
  }

  // ---------- what arrives ----------

  /** What the messages hand on parses to the first of the submessages, in order, each once and unchanged. */
  ghost predicate ArriveInOrder(messages: seq<seq<byte>>, subs: seq<Submessage>) {
    var handed := Handled([], AllDecoded(messages)).1;
    && |handed| <= |subs|
    && (forall k :: 0 <= k < |handed| ==> Submessages(handed[k]) == [(SubheaderOf(subs[k]), subs[k].payload)])
  }

  /** All of the submessages have come out. */
  ghost predicate AllArrive(messages: seq<seq<byte>>, subs: seq<Submessage>) {
    ArriveInOrder(messages, subs) && |Handled([], AllDecoded(messages)).1| == |subs|
  }

  ghost predicate AllSpoken(subs: seq<Submessage>) {
    forall s :: s in subs ==> s == Spoken(s.payload)
  }

  lemma SpokenArrives(payload: Payload)
    ensures Arrived(Spoken(payload)) == (SubheaderOf(Spoken(payload)), payload)
  {
  }

  lemma {:induction false} OnlySpoken(w: Way, ts: seq<Talk>, acts: seq<Act>, n: nat)
    requires Runs(w, ts, acts) && n <= |acts|
    ensures AllSpoken(ts[n].subs)
  {
    hide Said, WindowOpen;
    if n > 0 {
      OnlySpoken(w, ts, acts, n - 1);
      assert Allowed(w, ts[n - 1], acts[n - 1]);
    }
  }

  lemma TrafficArrives(w: Way, messages: seq<seq<byte>>, subs: seq<Submessage>)
    requires messages <= Traffic(w.base, subs, w.mtu) && AllSpoken(subs) && AllSendable(w.base, subs, w.mtu)
    ensures ArriveInOrder(messages, subs)
    ensures messages == Traffic(w.base, subs, w.mtu) ==> AllArrive(messages, subs)
  {
    hide Traffic, Handled, AllDecoded, Submessages, Sendable, Legible, Arrived, Spoken, SubheaderOf;
    forall s | s in subs
      ensures Legible(s)
    {
      SpokenIsLegible(w, s.payload);
    }
    ArrivedInOrder(messages, w.base, subs, w.mtu);
    var handed := Handled([], AllDecoded(messages)).1;
    forall k | 0 <= k < |handed|
      ensures Submessages(handed[k]) == [(SubheaderOf(subs[k]), subs[k].payload)]
    {
      assert subs[k] in subs;
      SpokenArrives(subs[k].payload);
    }
  }

  /** In every run of proper acts, what was parsed are the first of the submessages pushed, in order, each once and
      unchanged. */
  lemma SubmessagesArrive(w: Way, ts: seq<Talk>, acts: seq<Act>, n: nat)
    requires Runs(w, ts, acts) && n <= |acts| && forall i :: 0 <= i < n ==> ProperAt(w, ts, acts, i)
    ensures ArriveInOrder(ts[n].link.delivered, ts[n].subs)
  {
    assert |ts| == |acts| + 1;
    hide Runs, Traffic, ArriveInOrder, L.Inv;
    RunKeepsInv(w, ts, acts, n);
    OnlySpoken(w, ts, acts, n);
    L.InvDelivers(ts[n].link);
    TrafficArrives(w, ts[n].link.delivered, ts[n].subs);
  }

  // ---------- gentle conversations ----------

  /** No submessage takes more than 32752 messages, and no packet is older than the comparisons tolerate. */
  ghost predicate Gentle(w: Way, t: Talk, a: Act) {
    match a
    case Say(payload) => |Said(w, t, payload)| <= R.MODEST
    case Move(e) => e.Arrive? ==> L.Recent(t.link, e.packet)
  }

  lemma GentleStep(w: Way, t: Talk, a: Act)
    requires Inv(w, t) && L.Calm(t.link) && Allowed(w, t, a) && Gentle(w, t, a)
    ensures Proper(w, t, a) && Inv(w, Next(w, t, a)) && L.Calm(Next(w, t, a).link)
  {
    hide Traffic, Sendable, L.Inv, L.Proper, Said, WindowOpen, R.PushAll, L.Step, L.Calm, L.Recent;
    ActKeepsInvIff(w, t, a);
    match a
    case Say(payload) =>
      if WindowOpen(t.link.sender) {
        R.ModestPushKeepsCalm(t.link, Said(w, t, payload));
        R.PushAllKeepsIff(t.link, Said(w, t, payload));
      }
    case Move(e) =>
      R.CalmStep(t.link, e);
  }

  /** A gentle run needs no other condition: it stays calm, and everything said above holds of it. */
  lemma {:induction false} GentleRunsStayCalm(w: Way, ts: seq<Talk>, acts: seq<Act>, n: nat)
    requires Runs(w, ts, acts) && n <= |acts|
    requires forall i :: 0 <= i < n ==> Gentle(w, ts[i], acts[i])
    ensures Inv(w, ts[n]) && L.Calm(ts[n].link) && forall i :: 0 <= i < n ==> ProperAt(w, ts, acts, i)
  {
    hide Proper, Next, Allowed, L.Inv, Traffic, AllSendable, Gentle, L.Calm;
    if n == 0 {
      StartKeeps(w, ts[0]);
    } else {
      GentleRunsStayCalm(w, ts, acts, n - 1);
      GentleStep(w, ts[n - 1], acts[n - 1]);
    }
  }

  /** From every state of a gentle run, enough rounds without losses bring out every submessage that was pushed. */
  lemma EverythingArrives(w: Way, ts: seq<Talk>, acts: seq<Act>, n: nat, rounds: nat)
    requires Runs(w, ts, acts) && n <= |acts|
    requires forall i :: 0 <= i < n ==> Gentle(w, ts[i], acts[i])
    requires (rounds - 1) * DEPTH < |ts[n].link.log| - ts[n].link.h <= rounds * DEPTH
    ensures AllArrive(L.Rounds(ts[n].link, rounds).delivered, ts[n].subs)
  {
    assert |ts| == |acts| + 1;
    hide Runs, Traffic, AllArrive, L.Inv, L.Calm, L.Rounds, Gentle;
    GentleRunsStayCalm(w, ts, acts, n);
    OnlySpoken(w, ts, acts, n);
    L.RoundsDeliverAll(ts[n].link, rounds);
    TrafficArrives(w, ts[n].link.log, ts[n].subs);
  }

  // ---------- a client that starts again ----------

  /**
   * The client is restarted after one conversation, and all of the next one is delivered.  It comes out as it should
   * if and only if what was delivered of the first ended with a whole submessage, or nothing of the second travels in
   * fragments.
   */
  lemma RestartIsCleanIff(w: Way, before: Talk, after: Talk)
    requires Inv(w, before) && Inv(w, after) && after.link.delivered == after.link.log
    ensures var buffer := Handled([], AllDecoded(before.link.delivered)).0;
            Handled(buffer, AllDecoded(after.link.delivered)).1 ==
              Wanted(Headers(w.base), 0, AllSerialized(after.subs), w.mtu) <==>
            || AtBoundary(Headers(w.base), 0, AllSerialized(before.subs), w.mtu, |before.link.delivered|)
            || forall s :: s in after.subs ==> |StreamHeader(w.base, 0)| + |Serialized(s)| <= w.mtu
  {
    hide L.Inv, Handled, Wanted, AtBoundary, Stream, Fits, Serialized, StreamHeader, OnWire, AllDecoded, AllSendable;
    L.InvDelivers(before.link);
    var (earlier, later) := (AllSerialized(before.subs), AllSerialized(after.subs));
    TrafficDecodes(before.link.delivered, w.base, before.subs, w.mtu);
    TrafficDecodes(after.link.delivered, w.base, after.subs, w.mtu);
    SendableFits(w.base, before.subs, w.mtu);
    SendableFits(w.base, after.subs, w.mtu);
    HeadersSameLengths(w.base);
    var stream := Stream(Headers(w.base), 0, later, w.mtu);
    OnWireLength(stream);
    assert stream[..|stream|] == stream;
    StreamAfterResetIff(Headers(w.base), AllDecoded(before.link.delivered), earlier, later, w.mtu);
    NoneCut(w, after.subs);
    DecodedLength(before.link.delivered);
  }

  lemma DecodedLength(messages: seq<seq<byte>>)
    ensures |AllDecoded(messages)| == |messages|
  {
  }

  lemma NoneCut(w: Way, subs: seq<Submessage>)
    ensures (forall d :: d in AllSerialized(subs) ==> |Headers(w.base)(0)| + |d| <= w.mtu) <==>
            (forall s :: s in subs ==> |StreamHeader(w.base, 0)| + |Serialized(s)| <= w.mtu)
  {
    hide Serialized, StreamHeader;
    var data := AllSerialized(subs);
    assert forall i :: 0 <= i < |subs| ==> data[i] == Serialized(subs[i]) && data[i] in data;
  }

  /** A DELETE takes eight bytes. */
  lemma DeleteSize(request: Request)
    ensures |Serialized(Spoken(Delete(request)))| == 8
  {
    var s := Spoken(Delete(request));
    hide Encode, EncodeItem, SubheaderItems;
    EncodeAppend(SubheaderItems(SubheaderOf(s)), RequestItems(request), 0);
    EncodedSubheader(SubheaderOf(s), 0);
    EncodeTwo(Raw(request.requestId), Raw(request.objectId), 4);
    RawSize(request.requestId, 4);
    RawSize(request.objectId, 6);
  }

  ghost predicate Tiny(w: Way) {
    w.base.session >= 128 && w.mtu == 11
  }

  /** With an MTU of 11 it becomes three fragments, the first of three bytes. */
  lemma DeleteInThree(w: Way, request: Request, n: nat)
    requires Tiny(w)
    ensures var (data, header) := (Serialized(Spoken(Delete(request))), Headers(w.base)(n));
            var bodies := Bodies(Headers(w.base), n, data, w.mtu);
            && |header| == 4 && |data| == 8 && Cut(Headers(w.base), n, data, w.mtu)
            && |bodies| == 3 && bodies[0] == Piece(header, data[..3], false)
  {
    hide Serialized, StreamHeader;
    var data := Serialized(Spoken(Delete(request)));
    DeleteSize(request);
    HeaderLength(w.base, n);
    SplitCount(data, 3);
    PiecesLength(Headers(w.base), n, Split(data, 3));
    PiecesCons(Headers(w.base), n, Fragment(data[..3], false), Split(data[3..], 3));
  }

  /** Push a DELETE on a new link. */
  lemma FirstDelete(w: Way, request: Request)
    requires Tiny(w)
    ensures var t := Talk(R.Fresh(), []);
            && Allowed(w, t, Say(Delete(request)))
            && (var u := Next(w, t, Say(Delete(request)));
                && Inv(w, u) && L.Calm(u.link) && u.subs == [Spoken(Delete(request))] && |u.link.log| == 3
                && u.link == R.Fresh().(sender := u.link.sender, log := u.link.log))
  {
    var (t, a) := (Talk(R.Fresh(), []), Say(Delete(request)));
    DeleteInThree(w, request, 0);
    StartKeeps(w, t);
    R.PushAllIs(t.link, Said(w, t, Delete(request)));
    R.WindowAt(t.link);
    hide Traffic, L.Inv, Bodies, Serialized, StreamHeader;
    GentleStep(w, t, a);
  }

  /** One fragment of it arrives and is handled. */
  lemma OneFragmentHandled(u: L.Link<seq<byte>>)
    requires L.Inv(u) && L.Calm(u) && |u.log| == 3 && u.s == u.h == u.a == 0
    ensures var sent := L.Step(u, L.SendNext);
            && L.Data(0, u.log[0]) in sent.wire
            && (var m := L.Step(L.Step(sent, L.Arrive(L.Data(0, u.log[0]))), L.Pop);
                L.Inv(m) && m.log == u.log && m.delivered == u.delivered + [u.log[0]])
  {
    R.SendsNext(u);
    hide L.Inv, L.Step, L.Received, L.Has;
    var sent := L.Step(u, L.SendNext);
    assert sent.wire[|u.wire|] == L.Data(0, u.log[0]);
    R.FreshDataKept(sent);
    R.ArrivalIs(sent, L.Data(0, u.log[0]));
    R.PopsKept(L.Received(sent, L.Data(0, u.log[0])));
  }

  lemma FirstTraffic(w: Way, request: Request)
    requires Tiny(w)
    ensures var data := Serialized(Spoken(Delete(request)));
            && AllSerialized([Spoken(Delete(request))]) == [data]
            && Stream(Headers(w.base), 0, [data], w.mtu) == Bodies(Headers(w.base), 0, data, w.mtu)
  {
    var data := Serialized(Spoken(Delete(request)));
    hide Serialized, Bodies;
    var one: seq<seq<byte>> := [data];
    assert one[1..] == [];
    assert Stream(Headers(w.base), |Bodies(Headers(w.base), 0, data, w.mtu)|, [], w.mtu) == [];
  }

  lemma InterruptedAndWhole(w: Way, request: Request) returns (before: Talk, after: Talk)
    requires Tiny(w)
    ensures Inv(w, before) && Inv(w, after) && before.subs == after.subs == [Spoken(Delete(request))]
    ensures |before.link.delivered| == 1 && after.link.delivered == after.link.log
  {
    FirstDelete(w, request);
    var u := Next(w, Talk(R.Fresh(), []), Say(Delete(request)));
    hide Next, L.Inv, L.Step, L.Rounds, Bodies, StreamHeader, Serialized, Traffic, AllSendable;
    OneFragmentHandled(u.link);
    var sent := L.Step(u.link, L.SendNext);
    before := u.(link := L.Step(L.Step(sent, L.Arrive(L.Data(0, u.link.log[0]))), L.Pop));
    L.RoundsDeliverAll(u.link, 1);
    after := u.(link := L.Rounds(u.link, 1));
  }

  /** The first of three fragments is handled, the client is restarted and pushes the same DELETE again: it comes out
      behind the first three bytes of the old one. */
  lemma RestartGlues(w: Way, request: Request) returns (before: Talk, after: Talk)
    requires Tiny(w)
    ensures Inv(w, before) && Inv(w, after) && before.subs == after.subs == [Spoken(Delete(request))]
    ensures |before.link.delivered| == 1 && after.link.delivered == after.link.log
    ensures var (buffer, data) := (Handled([], AllDecoded(before.link.delivered)).0,
                                   Serialized(Spoken(Delete(request))));
            && |data| == 8 && buffer == StreamHeader(w.base, 0) + data[..3]
            && Handled(buffer, AllDecoded(after.link.delivered)).1 == [buffer + data]
  {
    hide Inv, Bodies, StreamHeader, Serialized;
    before, after := InterruptedAndWhole(w, request);
    var data := Serialized(Spoken(Delete(request)));
    FirstTraffic(w, request);
    DeleteInThree(w, request, 0);
    var bodies := Bodies(Headers(w.base), 0, data, w.mtu);
    DeliveredBodies(w, before, bodies);
    DeliveredBodies(w, after, bodies);
    var buffer := StreamHeader(w.base, 0) + data[..3];
    OneFragmentLeft(bodies, StreamHeader(w.base, 0), data[..3]);
    BodiesFromBufferIff(buffer, Headers(w.base), 0, data, w.mtu);
  }

  lemma DeliveredBodies(w: Way, t: Talk, bodies: seq<Body>)
    requires Inv(w, t) && bodies == Stream(Headers(w.base), 0, AllSerialized(t.subs), w.mtu)
    ensures |t.link.delivered| <= |bodies| == |t.link.log|
    ensures AllDecoded(t.link.delivered) == bodies[..|t.link.delivered|]
  {
    hide L.Inv, Stream, AllDecoded, OnWire, AllSendable;
    L.InvDelivers(t.link);
    OnWireLength(bodies);
    TrafficDecodes(t.link.delivered, w.base, t.subs, w.mtu);
  }

  lemma OneFragmentLeft(bodies: seq<Body>, header: seq<byte>, bytes: seq<byte>)
    requires |bodies| > 0 && bodies[0] == Piece(header, bytes, false)
    ensures Handled([], bodies[..1]).0 == header + bytes
  {
    assert bodies[..1] == [bodies[0]] + [];
    HandledCons([], bodies[0], []);
  }

  // ---------- MTUs and samples that stop a stream ----------

  /** The smallest MTU that lets fragments pass, one byte in each. */
  ghost predicate Smallest(w: Way) {
    Room(w.base, w.mtu) == 1
  }

  lemma OneByteEach(w: Way, data: seq<byte>)
    requires Smallest(w) && |data| > 100
    ensures |Bodies(Headers(w.base), 0, data, w.mtu)| == |data|
  {
    hide StreamHeader;
    HeaderLength(w.base, 0);
    SplitCount(data, 1);
    PiecesLength(Headers(w.base), 0, Split(data, 1));
  }

  lemma LongSampleIsAllowed(w: Way, request: Request, sample: seq<byte>)
    requires Smallest(w) && |sample| + 8 <= 0xFFFF
    ensures Sendable(w.base, Spoken(Data(request, sample)), w.mtu)
  {
    hide Serialized, StreamHeader;
    HeaderLength(w.base, 0);
    DataSubmessageSize(request, sample);
  }

  /** With the smallest MTU, which the source takes from the client as it is, one long sample on a new link stalls it:
      nothing is ever sent, announced or asked for, and the window looks open again. */
  lemma LongSampleStalls(w: Way, request: Request, sample: seq<byte>)
    requires Smallest(w) && 33000 <= |sample| <= 65000
    ensures var (t, a) := (Talk(R.Fresh(), []), Say(Data(request, sample)));
            && Allowed(w, t, a)
            && (var l := Next(w, t, a).link;
                && L.Inv(l) && !HasNext(l.sender) && WindowOpen(l.sender)
                && Announced(l.receiver, Image(l.f), Image(|l.log| - 1)) == l.receiver
                && (forall k :: 0 <= k < 16 ==> !Missing(l.receiver, k)))
  {
    var (t, a) := (Talk(R.Fresh(), []), Say(Data(request, sample)));
    var data := Serialized(Spoken(Data(request, sample)));
    LongSampleIsAllowed(w, request, sample);
    DataSubmessageSize(request, sample);
    R.WindowAt(t.link);
    hide Serialized, StreamHeader, Bodies, L.Inv, HasNext, WindowOpen, Announced, Missing, Sendable, Smallest;
    OneByteEach(w, data);
    assert R.Idle(t.link);
    OnWireLength(Bodies(Headers(w.base), 0, data, w.mtu));
    R.BurstStalls(t.link, Said(w, t, a.payload));
  }

  lemma StatusSize(reply: Reply)
    ensures |Serialized(Spoken(Status(reply)))| == 10
  {
    var s := Spoken(Status(reply));
    hide Encode, EncodeItem, SubheaderItems;
    EncodeAppend(SubheaderItems(SubheaderOf(s)), ReplyItems(reply), 0);
    EncodedSubheader(SubheaderOf(s), 0);
    EncodeAppend(RequestItems(reply.request), ResultItems(reply.result), 4);
    EncodeTwo(Raw(reply.request.requestId), Raw(reply.request.objectId), 4);
    RawSize(reply.request.requestId, 4);
    RawSize(reply.request.objectId, 6);
    EncodeTwo(U8(reply.result.status), U8(reply.result.implementation), 8);
    OctetSize(reply.result.status, 8);
    OctetSize(reply.result.implementation, 9);
  }

  lemma OctetSize(b: byte, pos: nat)
    ensures |EncodeItem(U8(b), pos)| == 1
  {
  }

  /** A client without a key in its packets asks for an MTU of 8: the Agent's STATUS answer keeps `push_submessage` in
      its loop, and with an MTU below that the loop leaves the submessage in its first turn. */
  lemma StatusNeverReturns(w: Way, reply: Reply, turns: nat)
    requires w.base.session >= 128 && w.mtu <= 8
    ensures var size := |Serialized(Spoken(Status(reply)))|;
            && |StreamHeader(w.base, 0)| + size > w.mtu
            && (w.mtu == 8 ==> !Leaves(size, Room(w.base, w.mtu), turns))
            && (w.mtu < 8 ==> !TurnInside(size, Room(w.base, w.mtu), 0))
  {
    hide Serialized, StreamHeader;
    StatusSize(reply);
    HeaderLength(w.base, 0);
    if w.mtu == 8 {
      NoRoomNeverEnds(turns);
    } else {
      FragmentInside(10, Room(w.base, w.mtu), 0);
    }
  }
}
