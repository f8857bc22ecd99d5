/** The handlers that create and remove clients, and the agreement between the client registry and the session maps
    (src/cpp/processor/Processor.cpp).

    Handlers run one at a time.  `Agreement` holds after every run in which all sessions and message headers are
    keyless; with keyed sessions it fails, and `DeleteAgreesIff` says exactly when a DELETE keeps it.
  */
module Processors {

  import opened Words
  import opened SessionManagers
  import opened Roots

  /** The server's session maps and the root's registry, as one value. */
  datatype Agent<!E> = Agent(sessions: Sessions<E>, root: State)
  {
    ghost predicate SameClients() {
      root.clients.Keys == sessions.toEndpoint.Keys
    }

    ghost predicate Agreement() {
      root.Valid() && sessions.Inverse() && SameClients()
    }
  }

  function WithoutClient<E>(a: Agent<E>, key: uint32): Agent<E> {
    if key in a.root.clients then a.(root := Deleted(a.root, key)) else a
  }

  /** First part of `process_create_client_submessage`: another client at the same source gives way. */
  function SourceVacated<E>(a: Agent<E>, source: E, key: uint32): Agent<E> {
    match a.sessions.ClientAt(source)
    case Found(other) =>
      if other == key then a
      else
        var b := WithoutClient(a, other);
        b.(sessions := DestroyedAt(b.sessions, source))
    case NotFound => a
  }

  function ClientCreated<E>(a: Agent<E>, source: E, key: uint32, session: SessionId, accepted: bool): Agent<E> {
    var b := SourceVacated(a, source, key);
    if accepted then Agent(Established(b.sessions, source, key, session), Created(b.root, key, session)) else b
  }

  /** `process_delete_submessage` for a client object: the session of the packet's source goes with the client. */
  function ClientDeleted<E>(a: Agent<E>, source: E, key: uint32): Agent<E> {
    if key in a.root.clients then Agent(DestroyedAt(a.sessions, source), Deleted(a.root, key)) else a
  }

  /** The liveliness sweep removes a client and the session of its key. */
  function ClientExpired<E>(a: Agent<E>, key: uint32): Agent<E> {
    if key in a.root.clients then Agent(DestroyedOf(a.sessions, key), Deleted(a.root, key)) else a
  }

  class Processor<EndPoint(==)> {
    const server: SessionManager<EndPoint>
    const root: Root

    ghost function View(): Agent<EndPoint>
      reads server, root
    {
      Agent(server.View(), root.View())
    }

    ghost predicate Valid()
      reads server, root
    {
      server.View().Consistent() && root.View().Valid()
    }

    constructor (server: SessionManager<EndPoint>, root: Root)
      ensures this.server == server && this.root == root
    {
      this.server, this.root := server, root;
    }

    /** CREATE_CLIENT, which only a header without session may carry. */
    method ProcessCreateClient(
      source: EndPoint, outOfSession: bool, key: uint32, session: SessionId, cookieOk: bool, versionOk: bool)
      returns (rv: bool)
      requires Valid()
      modifies server, root
      ensures Valid()
      ensures rv == outOfSession
      ensures var ok := key != CLIENTKEY_INVALID && cookieOk && versionOk;
              View() == if outOfSession then ClientCreated(old(View()), source, key, session, ok) else old(View())
    {
      rv := true;
      if outOfSession {
        var known := server.GetClientKey(source);
        if known.Found? && key != known.value {
          var deleteStatus := root.DeleteClient(known.value);
          if deleteStatus.StatusOk? || deleteStatus.ErrUnknownReference? {
            server.DestroySessionAt(source);
          } else {
            rv := false;
          }
        }
        if rv {
          var status := root.CreateClient(key, session, cookieOk, versionOk);
          if status.StatusOk? {
            server.EstablishSession(source, key, session);
          }
        }
      } else {
        rv := false;
      }
    }

    /** An in-session packet: the client is looked up once, then `deletes` DELETE submessages name the client itself. */
    method ProcessInputPacket(source: EndPoint, headerKey: Lookup<uint32>, deletes: nat)
      requires Valid()
      modifies server, root
      ensures Valid()
      ensures View() == PacketHandled(old(View()), source, headerKey, deletes)
    {
      var key := headerKey;
      if key.NotFound? {
        key := server.GetClientKey(source);
      }
      if key.Found? && key.value in root.clients {
        var left := deletes;
        while left > 0
          invariant Valid()
          invariant 0 <= left <= deletes
          invariant View() == if left == deletes then old(View()) else ClientDeleted(old(View()), source, key.value)
        {
          var status := root.DeleteClient(key.value);
          if status.StatusOk? {
            server.DestroySessionAt(source);
          }
          left := left - 1;
        }
      }
    }

    /** The branch of `check_heartbeats` for a client in state `to_remove`. */
    method RemoveDeadClient(key: uint32)
      requires Valid()
      modifies server, root
      ensures Valid()
      ensures View() == ClientExpired(old(View()), key)
    {
      var status := root.DeleteClient(key);
      if status.StatusOk? {
        server.DestroySessionOf(key);
      }
    }
  }

  /** A keyed header names the client; a keyless one leaves the lookup to the endpoint of the source. */
  function PacketHandled<E>(a: Agent<E>, source: E, headerKey: Lookup<uint32>, deletes: nat): Agent<E> {
    var key := if headerKey.Found? then headerKey else a.sessions.ClientAt(source);
    if key.Found? && deletes > 0 then ClientDeleted(a, source, key.value) else a
  }

  // ---------- agreement in keyless operation ----------

  datatype Event<!E> =
    | CreateClient(source: E, key: uint32, session: SessionId, accepted: bool)
    | Packet(source: E, headerKey: Lookup<uint32>, deletes: nat)
    | Expire(key: uint32)

  function Handle<E>(a: Agent<E>, e: Event<E>): Agent<E> {
    match e
    case CreateClient(source, key, session, accepted) => ClientCreated(a, source, key, session, accepted)
    case Packet(source, headerKey, deletes) => PacketHandled(a, source, headerKey, deletes)
    case Expire(key) => ClientExpired(a, key)
  }

  function HandleAll<E>(a: Agent<E>, es: seq<Event<E>>): Agent<E> {
    if es == [] then a else Handle(HandleAll(a, es[..|es| - 1]), es[|es| - 1])
  }

  predicate Keyless<E>(e: Event<E>) {
    match e
    case CreateClient(_, _, session, _) => !HasSessionClientKey(session)
    case Packet(_, headerKey, _) => headerKey.NotFound?
    case Expire(_) => true
  }

  lemma VacatingKeepsAgreement<E>(a: Agent<E>, source: E, key: uint32)
    requires a.Agreement()
    ensures var b := SourceVacated(a, source, key);
            b.Agreement() && (source in b.sessions.toClient ==> b.sessions.toClient[source] == key)
  {
  }

  lemma CreatingKeepsAgreement<E>(a: Agent<E>, source: E, key: uint32, session: SessionId)
    requires a.Agreement() && !HasSessionClientKey(session)
    requires source in a.sessions.toClient ==> a.sessions.toClient[source] == key
    ensures Agent(Established(a.sessions, source, key, session), Created(a.root, key, session)).Agreement()
  {
  }

  lemma HandlingKeepsAgreement<E>(a: Agent<E>, e: Event<E>)
    requires a.Agreement() && Keyless(e)
    ensures Handle(a, e).Agreement()
  {
    match e
    case CreateClient(source, key, session, accepted) =>
      VacatingKeepsAgreement(a, source, key);
      CreatingKeepsAgreement(SourceVacated(a, source, key), source, key, session);
    case _ =>
  }

  /** After every run of keyless creations, re-creations, moves, deletions and liveliness removals, the session maps
      are exact inverses and know exactly the registered clients. */
  lemma {:induction false} KeylessRunsAgree<E>(es: seq<Event<E>>)
    requires forall i :: 0 <= i < |es| ==> Keyless(es[i])
    ensures HandleAll(Agent(Sessions(map[], map[]), State(map[], End)), es).Agreement()
  {
    if es != [] {
      KeylessRunsAgree(es[..|es| - 1]);
      HandlingKeepsAgreement(HandleAll(Agent(Sessions(map[], map[]), State(map[], End)), es[..|es| - 1]), es[|es| - 1]);
    }
  }

  /** A client that was created is found again from its endpoint, and only from there. */
  lemma CreatedClientIsReachable<E>(a: Agent<E>, source: E, key: uint32, session: SessionId)
    requires a.Agreement() && !HasSessionClientKey(session)
    ensures var b := ClientCreated(a, source, key, session, true);
            && key in b.root.clients
            && b.sessions.ClientAt(source) == Found(key)
            && (forall e :: b.sessions.ClientAt(e) == Found(key) ==> e == source)
  {
    HandlingKeepsAgreement(a, CreateClient(source, key, session, true));
  }

  /** The client that a packet is from: the one that its header names, or, without a key there, the one found at its
      source. */
  predicate IsFrom<E>(a: Agent<E>, source: E, headerKey: Lookup<uint32>, key: uint32) {
    if headerKey.Found? then headerKey.value == key
    else source in a.sessions.toClient && a.sessions.toClient[source] == key
  }

  /** A packet removes exactly the client it is from, if that is registered and asks for it; nobody else's record
      changes. */
  lemma PacketRemovesOwnClient<E>(a: Agent<E>, source: E, headerKey: Lookup<uint32>, deletes: nat, key: uint32)
    ensures var b := PacketHandled(a, source, headerKey, deletes);
            && (key in b.root.clients <==>
                key in a.root.clients && !(deletes > 0 && IsFrom(a, source, headerKey, key)))
            && (key in b.root.clients ==> b.root.clients[key] == a.root.clients[key])
  {
  }

  /** A creation removes exactly another client that was found at its source, even if it is then rejected; if it is
      accepted, its client is registered with its session and is sent its packets there. */
  lemma CreationReplacesAtSource<E>(a: Agent<E>, source: E, key: uint32, session: SessionId, accepted: bool,
                                    other: uint32)
    requires other != key
    ensures var b := ClientCreated(a, source, key, session, accepted);
            && (other in b.root.clients <==> other in a.root.clients && a.sessions.ClientAt(source) != Found(other))
            && (other in b.root.clients ==> b.root.clients[other] == a.root.clients[other])
            && (accepted ==> && key in b.root.clients && b.root.clients[key].session == session
                             && key in b.sessions.toEndpoint && b.sessions.toEndpoint[key] == source)
            && (!accepted ==> (key in b.root.clients <==> key in a.root.clients))
  {
  }

  /** An expired client goes, with its session, and no other record changes. */
  lemma ExpiryRemovesOne<E>(a: Agent<E>, key: uint32, other: uint32)
    requires other != key
    ensures var b := ClientExpired(a, key);
            && key !in b.root.clients && (key in a.root.clients ==> key !in b.sessions.toEndpoint)
            && (other in b.root.clients <==> other in a.root.clients)
            && (other in b.sessions.toEndpoint <==> other in a.sessions.toEndpoint)
  {
  }

  // ---------- keyed sessions ----------

  /** The DELETE handler keeps registry and sessions in step if and only if the packet came from the endpoint through
      which the client is found; a keyed client is not found that way, so its session outlives it. */
  lemma DeleteAgreesIff<E>(a: Agent<E>, source: E, key: uint32)
    requires a.SameClients() && a.sessions.Consistent() && key in a.root.clients
    ensures ClientDeleted(a, source, key).SameClients() <==> a.sessions.ClientAt(source) == Found(key)
  {
    var b := ClientDeleted(a, source, key);
    assert b.root.clients.Keys == a.root.clients.Keys - {key};
    if a.sessions.ClientAt(source) == Found(key) {
      assert b.sessions.toEndpoint.Keys == a.sessions.toEndpoint.Keys - {key};
    } else {
      assert key in b.sessions.toEndpoint;
    }
  }

  /** The packet deletes no registered client, or comes from the endpoint through which that client is found. */
  ghost predicate DeletesAtHome<E>(a: Agent<E>, e: Event<E>) {
    e.Packet? ==>
      var key := if e.headerKey.Found? then e.headerKey else a.sessions.ClientAt(e.source);
      key.Found? && e.deletes > 0 && key.value in a.root.clients ==> a.sessions.ClientAt(e.source) == key
  }

  lemma HandlingKeepsRoutes<E>(a: Agent<E>, e: Event<E>)
    requires a.sessions.Consistent()
    ensures Handle(a, e).sessions.Consistent()
  {
  }

  lemma CreationKeepsClients<E>(a: Agent<E>, source: E, key: uint32, session: SessionId, accepted: bool)
    requires a.SameClients() && a.sessions.Consistent()
    ensures ClientCreated(a, source, key, session, accepted).SameClients()
  {
    var b := SourceVacated(a, source, key);
    assert b.SameClients();
  }

  lemma HandlingKeepsClientsIff<E>(a: Agent<E>, e: Event<E>)
    requires a.SameClients() && a.sessions.Consistent()
    ensures Handle(a, e).SameClients() <==> DeletesAtHome(a, e)
  {
    match e
    case CreateClient(source, key, session, accepted) =>
      CreationKeepsClients(a, source, key, session, accepted);
    case Packet(source, headerKey, deletes) =>
      var key := if headerKey.Found? then headerKey else a.sessions.ClientAt(source);
      if key.Found? && deletes > 0 && key.value in a.root.clients {
        DeleteAgreesIff(a, source, key.value);
      }
    case Expire(key) =>
  }

  /** The agent after the first `i` events. */
  ghost function After<E>(es: seq<Event<E>>, i: nat): Agent<E>
    requires i <= |es|
  {
    HandleAll(Agent(Sessions(map[], map[]), State(map[], End)), es[..i])
  }

  lemma AfterOneMore<E>(es: seq<Event<E>>, i: nat)
    requires i < |es|
    ensures After(es, i + 1) == Handle(After(es, i), es[i])
  {
    assert es[..i + 1][..i] == es[..i];
  }

  lemma {:induction false} RoutesAfter<E>(es: seq<Event<E>>, i: nat)
    requires i <= |es|
    ensures After(es, i).sessions.Consistent()
    ensures (forall k :: 0 <= k < i ==> DeletesAtHome(After(es, k), es[k])) ==> After(es, i).SameClients()
  {
    hide Handle, DeletesAtHome;
    if i == 0 {
      assert es[..0] == [];
    } else {
      RoutesAfter(es, i - 1);
      AfterOneMore(es, i - 1);
      HandlingKeepsRoutes(After(es, i - 1), es[i - 1]);
      if After(es, i - 1).SameClients() {
        HandlingKeepsClientsIff(After(es, i - 1), es[i - 1]);
      }
    }
  }

  /**
   * For any mix of keyed and keyless sessions: registry and sessions know the same clients throughout a run if and
   * only if every DELETE of a registered client comes from the endpoint through which that client is found.
   */
  lemma MixedRunsAgreeIff<E>(es: seq<Event<E>>)
    ensures (forall i :: 0 <= i <= |es| ==> After(es, i).SameClients())
            <==> (forall i :: 0 <= i < |es| ==> DeletesAtHome(After(es, i), es[i]))
  {
    hide DeletesAtHome, After;
    if forall i :: 0 <= i <= |es| ==> After(es, i).SameClients() {
      forall i | 0 <= i < |es|
        ensures DeletesAtHome(After(es, i), es[i])
      {
        RoutesAfter(es, i);
        AfterOneMore(es, i);
        assert After(es, i).SameClients() && After(es, i + 1).SameClients();
        HandlingKeepsClientsIff(After(es, i), es[i]);
      }
    } else if forall i :: 0 <= i < |es| ==> DeletesAtHome(After(es, i), es[i]) {
      forall i | 0 <= i <= |es|
        ensures After(es, i).SameClients()
      {
        RoutesAfter(es, i);
      }
    }
  }

  /** The shortest such run: a keyed client is created and deletes itself. */
  lemma KeyedDeleteLeavesSession<E>(source: E)
    ensures var a := HandleAll(
                       Agent(Sessions(map[], map[]), State(map[], End)),
                       [CreateClient(source, 7, 1, true), Packet(source, Found(7), 1)]);
            7 !in a.root.clients && 7 in a.sessions.toEndpoint
  {
    var e1, e2 := CreateClient(source, 7, 1, true), Packet(source, Found(7), 1);
    assert [e1, e2][..1] == [e1] && [e1][..0] == [];
    var a0: Agent<E> := Agent(Sessions(map[], map[]), State(map[], End));
    assert HandleAll(a0, [e1]) == Handle(a0, e1);
  }
}
