/** Which client talks from which endpoint (include/uxr/agent/transport/SessionManager.hpp). */
module SessionManagers {

  import opened Words

  type SessionId = byte

  predicate HasSessionClientKey(session: SessionId) {
    128 > session
  }

  datatype Lookup<+T> = Found(value: T) | NotFound

  /** The two maps as a value. */
  datatype Sessions<!EndPoint> = Sessions(toClient: map<EndPoint, uint32>, toEndpoint: map<uint32, EndPoint>)
  {
    /** Every route from an endpoint is the inverse of a route from a client; hence `toClient` is injective. */
    ghost predicate Consistent() {
      forall e :: e in toClient ==> toClient[e] in toEndpoint && toEndpoint[toClient[e]] == e
    }

    /** The two maps are exact inverses of each other. */
    ghost predicate Inverse() {
      && Consistent()
      && forall k :: k in toEndpoint ==> toEndpoint[k] in toClient && toClient[toEndpoint[k]] == k
    }

    function ClientAt(e: EndPoint): Lookup<uint32> {
      if e in toClient then Found(toClient[e]) else NotFound
    }
  }

  function Established<E>(s: Sessions<E>, endpoint: E, key: uint32, session: SessionId): Sessions<E> {
    var cleared := if key in s.toEndpoint then s.toClient - {s.toEndpoint[key]} else s.toClient;
    Sessions(
      if HasSessionClientKey(session) then cleared else cleared[endpoint := key],
      s.toEndpoint[key := endpoint])
  }

  function DestroyedAt<E>(s: Sessions<E>, endpoint: E): Sessions<E> {
    if endpoint in s.toClient then Sessions(s.toClient - {endpoint}, s.toEndpoint - {s.toClient[endpoint]}) else s
  }

  function DestroyedOf<E>(s: Sessions<E>, key: uint32): Sessions<E> {
    if key in s.toEndpoint then Sessions(s.toClient - {s.toEndpoint[key]}, s.toEndpoint - {key}) else s
  }

  class SessionManager<EndPoint(==)> {
    var endpointToClient: map<EndPoint, uint32>
    var clientToEndpoint: map<uint32, EndPoint>

    ghost function View(): Sessions<EndPoint>
      reads this
    {
      Sessions(endpointToClient, clientToEndpoint)
    }

    constructor ()
      ensures View() == Sessions(map[], map[]) && View().Inverse()
    {
      endpointToClient, clientToEndpoint := map[], map[];
    }

    method EstablishSession(endpoint: EndPoint, key: uint32, session: SessionId)
      requires View().Consistent()
      modifies this
      ensures View() == Established(old(View()), endpoint, key, session) && View().Consistent()
      ensures View().ClientAt(endpoint) == Found(key) <==> session >= 0x80
    {
      EstablishKeepsConsistency(View(), endpoint, key, session);
      if key in clientToEndpoint {
        endpointToClient := endpointToClient - {clientToEndpoint[key]};
        clientToEndpoint := clientToEndpoint[key := endpoint];
      } else {
        clientToEndpoint := clientToEndpoint[key := endpoint];
      }
      if !HasSessionClientKey(session) {
        endpointToClient := endpointToClient[endpoint := key];
      }
    }

    method DestroySessionAt(endpoint: EndPoint)
      requires View().Consistent()
      modifies this
      ensures View() == DestroyedAt(old(View()), endpoint) && View().Consistent()
    {
      DestroyAtKeepsConsistency(View(), endpoint);
      if endpoint in endpointToClient {
        clientToEndpoint := clientToEndpoint - {endpointToClient[endpoint]};
        endpointToClient := endpointToClient - {endpoint};
      }
    }

    method DestroySessionOf(key: uint32)
      requires View().Consistent()
      modifies this
      ensures View() == DestroyedOf(old(View()), key) && View().Consistent()
    {
      DestroyOfKeepsConsistency(View(), key);
      if key in clientToEndpoint {
        endpointToClient := endpointToClient - {clientToEndpoint[key]};
        clientToEndpoint := clientToEndpoint - {key};
      }
    }

    method GetClientKey(endpoint: EndPoint) returns (r: Lookup<uint32>)
      requires View().Consistent()
      ensures r == View().ClientAt(endpoint)
      ensures r.Found? ==> r.value in clientToEndpoint && clientToEndpoint[r.value] == endpoint
    {
      r := if endpoint in endpointToClient then Found(endpointToClient[endpoint]) else NotFound;
    }

    /** Packets for a client go to the endpoint through which it is found, if it is found at all. */
    method GetEndpoint(key: uint32) returns (r: Lookup<EndPoint>)
      requires View().Consistent()
      ensures r.Found? <==> key in clientToEndpoint
      ensures r.Found? ==> r.value == clientToEndpoint[key]
      ensures forall e :: e in endpointToClient && endpointToClient[e] == key ==> r == Found(e)
    {
      r := if key in clientToEndpoint then Found(clientToEndpoint[key]) else NotFound;
    }
  }

  // ---------- any mix of keyed and keyless sessions ----------

  lemma EstablishKeepsConsistency<E>(s: Sessions<E>, endpoint: E, key: uint32, session: SessionId)
    requires s.Consistent()
    ensures Established(s, endpoint, key, session).Consistent()
  {
  }

  lemma DestroyAtKeepsConsistency<E>(s: Sessions<E>, endpoint: E)
    requires s.Consistent()
    ensures DestroyedAt(s, endpoint).Consistent()
  {
  }

  lemma DestroyOfKeepsConsistency<E>(s: Sessions<E>, key: uint32)
    requires s.Consistent()
    ensures DestroyedOf(s, key).Consistent()
  {
  }

  datatype SessionCall<!E> =
    | Establish(endpoint: E, key: uint32, session: SessionId)
    | DestroyAt(endpoint: E)
    | DestroyOf(key: uint32)

  function Apply<E>(s: Sessions<E>, c: SessionCall<E>): Sessions<E> {
    match c
    case Establish(e, k, session) => Established(s, e, k, session)
    case DestroyAt(e) => DestroyedAt(s, e)
    case DestroyOf(k) => DestroyedOf(s, k)
  }

  function ApplyAll<E>(s: Sessions<E>, calls: seq<SessionCall<E>>): Sessions<E> {
    if calls == [] then s else Apply(ApplyAll(s, calls[..|calls| - 1]), calls[|calls| - 1])
  }

  /** After any sequence of calls, with any mix of sessions: no two endpoints lead to one client, and every route has
      its inverse. */
  lemma {:induction false} RoutesStayConsistent<E>(calls: seq<SessionCall<E>>, e1: E, e2: E)
    ensures var s := ApplyAll(Sessions(map[], map[]), calls);
            && s.Consistent()
            && (e1 in s.toClient && e2 in s.toClient && s.toClient[e1] == s.toClient[e2] ==> e1 == e2)
  {
    if calls != [] {
      RoutesStayConsistent(calls[..|calls| - 1], e1, e2);
      var s := ApplyAll(Sessions(map[], map[]), calls[..|calls| - 1]);
      match calls[|calls| - 1]
      case Establish(e, k, session) => EstablishKeepsConsistency(s, e, k, session);
      case DestroyAt(e) => DestroyAtKeepsConsistency(s, e);
      case DestroyOf(k) => DestroyOfKeepsConsistency(s, k);
    }
  }

  /** The routes of all other clients are as they were. */
  ghost predicate OthersKept<E>(s: Sessions<E>, after: Sessions<E>, key: uint32) {
    forall f :: f in s.toClient && s.toClient[f] != key ==> f in after.toClient && after.toClient[f] == s.toClient[f]
  }

  /** Another client is found at the endpoint. */
  predicate TakenByAnother<E>(s: Sessions<E>, e: E, key: uint32) {
    e in s.toClient && s.toClient[e] != key
  }

  /** Destroying a client's session by its key leaves all other routes alone exactly when its endpoint is not the
      route of another client, which happens when a keyed client shares the endpoint of a keyless one. */
  lemma DestroyOfIsLocalIff<E>(s: Sessions<E>, key: uint32)
    requires s.Consistent()
    ensures OthersKept(s, DestroyedOf(s, key), key) <==>
            !(key in s.toEndpoint && TakenByAnother(s, s.toEndpoint[key], key))
  {
    if key in s.toEndpoint && TakenByAnother(s, s.toEndpoint[key], key) {
      assert s.toEndpoint[key] !in DestroyedOf(s, key).toClient;
    }
  }

  /** Establishing a session leaves all other routes alone exactly when the client does not leave an endpoint where
      another client is found, and, without a key in its packets, does not come to one. */
  lemma EstablishIsLocalIff<E>(s: Sessions<E>, endpoint: E, key: uint32, session: SessionId)
    requires s.Consistent()
    ensures OthersKept(s, Established(s, endpoint, key, session), key) <==>
            && !(key in s.toEndpoint && TakenByAnother(s, s.toEndpoint[key], key))
            && !(!HasSessionClientKey(session) && TakenByAnother(s, endpoint, key))
  {
    var after := Established(s, endpoint, key, session);
    if key in s.toEndpoint && TakenByAnother(s, s.toEndpoint[key], key) {
      assert s.toEndpoint[key] !in after.toClient || after.toClient[s.toEndpoint[key]] == key;
    }
  }

  /** A keyed client 2 and a keyless client 1 share endpoint 7: the end of 2's session, and its move to endpoint 8,
      cut off 1. */
  lemma SharedEndpointLosesRoute()
    ensures var s := ApplyAll(Sessions(map[], map[]), [Establish(7, 2, 1), Establish(7, 1, 129)]);
            && s == Sessions(map[7 := 1], map[2 := 7, 1 := 7])
            && DestroyedOf(s, 2) == Sessions(map[], map[1 := 7])
            && Established(s, 8, 2, 1) == Sessions(map[], map[2 := 8, 1 := 7])
  {
    var calls := [Establish(7, 2, 1), Establish(7, 1, 129)];
    assert calls[..1] == [Establish(7, 2, 1)] && calls[..1][..0] == [];
    assert ApplyAll(Sessions(map[], map[]), calls[..1]) == Sessions(map[], map[2 := 7]);
  }
}
