/** Access classes of the clients of the centralized middleware and the absence of peer-to-peer echoes
    (src/cpp/middleware/ced/CedMiddleware.cpp, constructor; src/cpp/middleware/ced/CedEntities.cpp).

    The internal client publishes here what a remote agent sent; external clients carry local
    data to remote agents; all other clients are ordinary.
  */
module CedAccess {

  import opened CedTopics
  import opened Words

  const INTERNAL_CLIENT_KEY: uint32 := 0xEAEA_EAEA
  const EXTERNAL_CLIENT_KEY_PREFIX := 0xEA

  datatype ClientClass = InternalClient | ExternalClient | OrdinaryClient

  function ClassOf(key: uint32): ClientClass {
    if key == INTERNAL_CLIENT_KEY then InternalClient
    else if key / 0x100_0000 == EXTERNAL_CLIENT_KEY_PREFIX then ExternalClient
    else OrdinaryClient
  }

  /** The fields that the constructor of `CedMiddleware` sets. */
  datatype Rights = Rights(src: TopicSource, write: Access, read: Access)

  function RightsOf(key: uint32): Rights {
    match ClassOf(key)
    case InternalClient => Rights(ExternalSource, ExternalAccess, NoAccess)
    case ExternalClient => Rights(ExternalSource, NoAccess, InternalAccess)
    case OrdinaryClient => Rights(InternalSource, CompleteAccess, CompleteAccess)
  }

  datatype Reader = Reader(key: uint32, position: nat)

  /** `delivered` records which entry of the log went to which client. */
  datatype Broker = Broker(log: seq<Sample>, readers: map<nat, Reader>, delivered: seq<(uint32, nat)>)

  datatype Action =
    | Publish(key: uint32, data: seq<byte>)
    | Subscribe(id: nat, key: uint32)
    | Take(id: nat)
    | Wake(id: nat)

  predicate Possible(b: Broker, a: Action) {
    match a
    case Publish(_, _) => true
    case Subscribe(id, _) => id !in b.readers
    case Take(id) => id in b.readers && b.readers[id].position <= |b.log|
    case Wake(id) => id in b.readers && b.readers[id].position <= |b.log|
  }

  /** The entry that a read (`Take`) or an evaluation of the waiting condition (`Wake`) looks at, and the position
      after it. */
  function Reached(b: Broker, a: Action, size: nat): (r: (nat, nat))
    requires 1 <= size && Possible(b, a) && (a.Take? || a.Wake?)
    ensures r.0 <= |b.log| && r.1 <= |b.log|
  {
    var reader := b.readers[a.id];
    var access := RightsOf(reader.key).read;
    if a.Take? then
      (ReadIndex(b.log, reader.position, access, size), NextPosition(b.log, reader.position, access, size))
    else
      var q := EffectivePosition(|b.log|, reader.position);
      if q == |b.log| then (q, reader.position)
      else
        ResidentSharesSlot(|b.log|, q, size);
        (Resident(|b.log|, q, size), q + 1)
  }

  function Act(b: Broker, a: Action, size: nat): Broker
    requires 1 <= size && Possible(b, a)
  {
    match a
    case Publish(key, data) =>
      var rights := RightsOf(key);
      if Permits(rights.write, rights.src) then b.(log := b.log + [Sample(data, rights.src, key)]) else b
    case Subscribe(id, key) => b.(readers := b.readers[id := Reader(key, 0)])
    case _ =>
      var reader := b.readers[a.id];
      var (i, q) := Reached(b, a, size);
      var taken := i < |b.log| && Permitted(b.log, i, RightsOf(reader.key).read);
      b.(readers := b.readers[a.id := reader.(position := q)],
         delivered := if taken then b.delivered + [(reader.key, i)] else b.delivered)
  }

  ghost predicate IsBrokerRun(bs: seq<Broker>, acts: seq<Action>, size: nat) {
    && 1 <= size
    && |bs| == |acts| + 1
    && bs[0] == Broker([], map[], [])
    && forall k :: 0 <= k < |acts| ==> Possible(bs[k], acts[k]) && bs[k + 1] == Act(bs[k], acts[k], size)
  }

  /** Every entry was written by a client that may write it, and every delivery was permitted to its receiver. */
  ghost predicate Attributed(b: Broker) {
    && (forall n :: 0 <= n < |b.log| ==>
          var rights := RightsOf(b.log[n].writer);
          b.log[n].src == rights.src && Permits(rights.write, rights.src))
    && (forall k :: 0 <= k < |b.delivered| ==>
          var (key, i) := b.delivered[k];
          i < |b.log| && Permitted(b.log, i, RightsOf(key).read))
    && (forall id :: id in b.readers ==> b.readers[id].position <= |b.log|)
  }

  lemma {:induction false} RunIsAttributed(bs: seq<Broker>, acts: seq<Action>, size: nat, k: nat)
    requires IsBrokerRun(bs, acts, size) && k < |bs|
    ensures Attributed(bs[k])
  {
    if k > 0 {
      RunIsAttributed(bs, acts, size, k - 1);
      ActKeepsAttribution(bs[k - 1], acts[k - 1], size);
    }
  }

  lemma ActKeepsAttribution(b: Broker, a: Action, size: nat)
    requires 1 <= size && Possible(b, a) && Attributed(b)
    ensures Attributed(Act(b, a, size))
  {
    if a.Publish? {
      var c := Act(b, a, size);
      forall k | 0 <= k < |c.delivered|
        ensures var (key, i) := c.delivered[k]; i < |c.log| && Permitted(c.log, i, RightsOf(key).read)
      {
        var (key, i) := b.delivered[k];
        assert Permitted(b.log, i, RightsOf(key).read);
      }
    }
  }

  /** In every run with any mix of clients: what the internal client wrote for a remote agent never reaches an
      external client, external clients write nothing, the internal client reads nothing, and all that an external
      client receives came from an ordinary client. */
  lemma NoEcho(bs: seq<Broker>, acts: seq<Action>, size: nat, k: nat)
    requires IsBrokerRun(bs, acts, size) && k < |bs|
    ensures forall n :: 0 <= n < |bs[k].log| ==> !ClassOf(bs[k].log[n].writer).ExternalClient?
    ensures forall d :: 0 <= d < |bs[k].delivered| ==>
              var (key, i) := bs[k].delivered[d];
              && i < |bs[k].log|
              && !ClassOf(key).InternalClient?
              && (ClassOf(key).ExternalClient? ==> ClassOf(bs[k].log[i].writer).OrdinaryClient?)
  {
    RunIsAttributed(bs, acts, size, k);
    var b := bs[k];
    forall d | 0 <= d < |b.delivered|
      ensures var (key, i) := b.delivered[d];
              && i < |b.log|
              && !ClassOf(key).InternalClient?
              && (ClassOf(key).ExternalClient? ==> ClassOf(b.log[i].writer).OrdinaryClient?)
    {
      var (key, i) := b.delivered[d];
      assert Permitted(b.log, i, RightsOf(key).read);
    }
  }

  /** The guards of `Take` and `Wake` never stop a registered reader. */
  lemma ReadersCanAlwaysRead(bs: seq<Broker>, acts: seq<Action>, size: nat, k: nat, id: nat)
    requires IsBrokerRun(bs, acts, size) && k < |bs| && id in bs[k].readers
    ensures Possible(bs[k], Take(id)) && Possible(bs[k], Wake(id))
  {
    RunIsAttributed(bs, acts, size, k);
  }

  // ---------- what does reach a client, by its class ----------

  /** A publication is kept exactly if its client is not external, with its data and its writer, at the end of the
      log. */
  lemma PublishedIff(b: Broker, key: uint32, data: seq<byte>, size: nat)
    requires 1 <= size
    ensures var c := Act(b, Publish(key, data), size);
            && c.readers == b.readers && c.delivered == b.delivered
            && (if ClassOf(key).ExternalClient? then c.log == b.log
                else |c.log| == |b.log| + 1 && c.log[..|b.log|] == b.log
                     && c.log[|b.log|].data == data && c.log[|b.log|].writer == key)
  {
  }

  /** Where a reader that is less than 65536 entries behind starts to look: at its own position, or at the oldest
      entry of the ring. */
  function Oldest(b: Broker, id: nat, size: nat): int
    requires id in b.readers
  {
    if b.readers[id].position >= |b.log| - size then b.readers[id].position else |b.log| - size
  }

  ghost predicate Behind(b: Broker, id: nat) {
    id in b.readers && 0 < |b.log| - b.readers[id].position < 0x1_0000
  }

  /** A read of an ordinary client delivers exactly the next entry of the ring, whoever wrote it. */
  lemma OrdinaryTakesNext(b: Broker, id: nat, size: nat)
    requires 1 <= size && Behind(b, id) && ClassOf(b.readers[id].key).OrdinaryClient?
    ensures var (c, i) := (Act(b, Take(id), size), Oldest(b, id, size));
            && c.log == b.log && 0 <= i < |b.log|
            && c.delivered == b.delivered + [(b.readers[id].key, i)]
            && c.readers == b.readers[id := Reader(b.readers[id].key, i + 1)]
  {
    var (p, n) := (b.readers[id].position, |b.log|);
    assert EffectivePosition(n, p) == p;
    FirstPermittedUnique(b.log, Start(n, p, size), CompleteAccess, Start(n, p, size));
  }

  /** A waiting ordinary client at most `size` entries behind is woken with its own next entry. */
  lemma OrdinaryWakesNext(b: Broker, id: nat, size: nat)
    requires 1 <= size && Behind(b, id) && ClassOf(b.readers[id].key).OrdinaryClient?
    requires |b.log| - b.readers[id].position <= size
    ensures var (c, p) := (Act(b, Wake(id), size), b.readers[id].position);
            && c.log == b.log
            && c.delivered == b.delivered + [(b.readers[id].key, p)]
            && c.readers == b.readers[id := Reader(b.readers[id].key, p + 1)]
  {
    var (p, n) := (b.readers[id].position, |b.log|);
    assert EffectivePosition(n, p) == p;
    ResidentSharesSlot(n, p, size);
  }

  /** A read of an external client delivers the first entry of the ring whose writer is ordinary, or nothing. */
  lemma ExternalTakesOrdinary(bs: seq<Broker>, acts: seq<Action>, size: nat, k: nat, id: nat, i: nat)
    requires IsBrokerRun(bs, acts, size) && k < |bs| && Behind(bs[k], id)
    requires ClassOf(bs[k].readers[id].key).ExternalClient?
    requires Oldest(bs[k], id, size) <= i <= |bs[k].log|
    requires forall j :: Oldest(bs[k], id, size) <= j < i ==> ClassOf(bs[k].log[j].writer).InternalClient?
    requires i < |bs[k].log| ==> ClassOf(bs[k].log[i].writer).OrdinaryClient?
    ensures var (b, c) := (bs[k], Act(bs[k], Take(id), size));
            && c.delivered == (if i < |b.log| then b.delivered + [(b.readers[id].key, i)] else b.delivered)
            && c.readers[id].position == if i < |b.log| then i + 1 else |b.log|
  {
    RunIsAttributed(bs, acts, size, k);
    var b := bs[k];
    var (p, n) := (b.readers[id].position, |b.log|);
    assert EffectivePosition(n, p) == p;
    assert Start(n, p, size) == Oldest(b, id, size);
    forall j | Start(n, p, size) <= j < i
      ensures !Permitted(b.log, j, InternalAccess)
    {
      assert ClassOf(b.log[j].writer).InternalClient?;
    }
    FirstPermittedUnique(b.log, Start(n, p, size), InternalAccess, i);
  }

  /** The internal client never receives anything. */
  lemma InternalTakesNothing(b: Broker, a: Action, size: nat)
    requires 1 <= size && Possible(b, a) && (a.Take? || a.Wake?) && ClassOf(b.readers[a.id].key).InternalClient?
    ensures Act(b, a, size).delivered == b.delivered && Act(b, a, size).log == b.log
  {
  }

  function TakenTimes(b: Broker, id: nat, n: nat, size: nat): (c: Broker)
    requires 1 <= size && id in b.readers && b.readers[id].position <= |b.log|
    ensures id in c.readers && c.readers[id].position <= |c.log|
  {
    if n == 0 then b else Act(TakenTimes(b, id, n - 1, size), Take(id), size)
  }

  /** An ordinary client at most `size` entries behind receives every one of them, in log order, by as many reads. */
  lemma {:induction false} OrdinaryCatchesUp(b: Broker, id: nat, n: nat, size: nat)
    requires 1 <= size && id in b.readers && ClassOf(b.readers[id].key).OrdinaryClient?
    requires b.readers[id].position + n <= |b.log| <= b.readers[id].position + size
    requires |b.log| < b.readers[id].position + 0x1_0000
    ensures var (c, key, p) := (TakenTimes(b, id, n, size), b.readers[id].key, b.readers[id].position);
            && c.log == b.log && c.readers == b.readers[id := Reader(key, p + n)]
            && c.delivered == b.delivered + InARow(key, p, n)
  {
    hide Act, ClassOf;
    var (key, p) := (b.readers[id].key, b.readers[id].position);
    if n == 0 {
      assert b.readers[id := Reader(key, p)] == b.readers;
    } else {
      OrdinaryCatchesUp(b, id, n - 1, size);
      var c := TakenTimes(b, id, n - 1, size);
      OrdinaryTakesNext(c, id, size);
      assert b.delivered + InARow(key, p, n - 1) + [(key, p + n - 1)] == b.delivered + InARow(key, p, n);
    }
  }

  /** An ordinary client that subscribes late receives all that the ring still holds, from the first entry on. */
  lemma LateSubscriberCatchesUp(b: Broker, id: nat, key: uint32, size: nat)
    requires id !in b.readers && |b.log| <= size && 1 <= size && |b.log| < 0x1_0000 && ClassOf(key).OrdinaryClient?
    ensures var c := TakenTimes(Act(b, Subscribe(id, key), size), id, |b.log|, size);
            c.log == b.log && c.delivered == b.delivered + InARow(key, 0, |b.log|)
  {
    OrdinaryCatchesUp(Act(b, Subscribe(id, key), size), id, |b.log|, size);
  }

  /** So many entries from `p` on, all for one client. */
  function InARow(key: uint32, p: nat, n: nat): seq<(uint32, nat)> {
    seq(n, i requires 0 <= i < n => (key, p + i))
  }

  /** The classes as ranges of keys. */
  lemma ClassByKey(key: uint32)
    ensures ClassOf(key).InternalClient? <==> key == 0xEAEA_EAEA
    ensures ClassOf(key).OrdinaryClient? <==> key < 0xEA00_0000 || key > 0xEAFF_FFFF
  {
  }
}
