/** The registry of clients and the cursor of the liveliness sweep (src/cpp/Root.cpp).

    `clients_` is an ordered map and `current_client_` a live iterator into it.  Keys are raw client keys, which are
    ordered like the keys themselves (`Conversions.RawKeepsKeyOrder`); the cursor is a key or the end.
  */
module Roots {

  import opened Words

  datatype Cursor = End | At(key: uint32)

  /** What a client record keeps of its representation; `generation` tells a replaced record from the original. */
  datatype ClientRecord = ClientRecord(session: byte, generation: nat)

  datatype Status = StatusOk | ErrInvalidData | ErrIncompatible | ErrUnknownReference

  const CLIENTKEY_INVALID: uint32 := 0

  // ---------- ordered iteration ----------

  predicate IsLeast(keys: set<uint32>, k: uint32) {
    k in keys && forall j :: j in keys ==> k <= j
  }

  lemma LeastExists(keys: set<uint32>)
    requires keys != {}
    ensures exists k :: IsLeast(keys, k)
  {
    var j :| j in keys;
    if keys == {j} {
      assert IsLeast(keys, j);
    } else {
      LeastExists(keys - {j});
      var k :| IsLeast(keys - {j}, k);
      assert forall i :: i in keys ==> i == j || i in keys - {j};
      assert IsLeast(keys, if j < k then j else k);
    }
  }

  /** `begin()`: the first entry, or the end of an empty map. */
  function Begin(keys: set<uint32>): (c: Cursor)
    ensures c.End? <==> keys == {}
    ensures c.At? ==> IsLeast(keys, c.key)
  {
    if keys == {} then End
    else
      LeastExists(keys);
      var k :| IsLeast(keys, k);
      At(k)
  }

  /** `++it` for an iterator at `k`: the next greater key. */
  function After(keys: set<uint32>, k: uint32): (c: Cursor)
    ensures c.End? <==> forall j :: j in keys ==> j <= k
    ensures c.At? ==> c.key in keys && k < c.key && forall j :: j in keys && k < j ==> c.key <= j
  {
    var greater := set j | j in keys && k < j;
    assert forall j :: j in keys && k < j ==> j in greater;
    Begin(greater)
  }

  // ---------- the steps as functions ----------

  datatype State = State(clients: map<uint32, ClientRecord>, cursor: Cursor)
  {
    ghost predicate Valid() {
      cursor.At? ==> cursor.key in clients
    }
  }

  function Created(s: State, key: uint32, session: byte): State {
    if key !in s.clients then s.(clients := s.clients[key := ClientRecord(session, 0)])
    else if session != s.clients[key].session
    then s.(clients := s.clients[key := ClientRecord(session, s.clients[key].generation + 1)])
    else s
  }

  function Deleted(s: State, key: uint32): State {
    State(s.clients - {key}, if s.cursor == At(key) then After(s.clients.Keys, key) else s.cursor)
  }

  function Advanced(s: State): State {
    s.(cursor := if s.cursor.At? then After(s.clients.Keys, s.cursor.key) else Begin(s.clients.Keys))
  }

  class Root {
    var clients: map<uint32, ClientRecord>
    var cursor: Cursor

    ghost function View(): State
      reads this
    {
      State(clients, cursor)
    }

    constructor ()
      ensures View() == State(map[], End) && View().Valid()
    {
      clients, cursor := map[], End;
    }

    /** Only a valid key with the right cookie and major version creates, replaces or resets a client. */
    method CreateClient(key: uint32, session: byte, cookieOk: bool, versionOk: bool) returns (status: Status)
      requires View().Valid()
      modifies this
      ensures View().Valid()
      ensures status.StatusOk? <==> key != CLIENTKEY_INVALID && cookieOk && versionOk
      ensures status.ErrInvalidData? <==> key == 0 || !cookieOk
      ensures status.ErrIncompatible? <==> key != CLIENTKEY_INVALID && cookieOk && !versionOk
      ensures View() == if status.StatusOk? then Created(old(View()), key, session) else old(View())
      ensures status.StatusOk? ==>
                && clients.Keys == old(clients).Keys + {key}
                && clients[key].session == session
                && (key in old(clients) ==>
                      (clients[key].generation == old(clients)[key].generation <==>
                          old(clients)[key].session == session))
                && (forall k :: k in old(clients) && k != key ==> clients[k] == old(clients)[k])
    {
      if key == CLIENTKEY_INVALID {
        return ErrInvalidData;
      }
      status := StatusOk;
      if cookieOk {
        if versionOk {
          if key !in clients {
            clients := clients[key := ClientRecord(session, 0)];
          } else if session != clients[key].session {
            clients := clients[key := ClientRecord(session, clients[key].generation + 1)];
          }
        } else {
          status := ErrIncompatible;
        }
      } else {
        status := ErrInvalidData;
      }
    }

    method DeleteClient(key: uint32) returns (status: Status)
      requires View().Valid()
      modifies this
      ensures View().Valid()
      ensures status == if key in old(clients) then StatusOk else ErrUnknownReference
      ensures View() == if key in old(clients) then Deleted(old(View()), key) else old(View())
    {
      if key in clients {
        if cursor.At? && key == cursor.key {
          cursor := After(clients.Keys, key);
        }
        clients := clients - {key};
        status := StatusOk;
      } else {
        status := ErrUnknownReference;
      }
    }

    method GetNextClient() returns (rv: bool, next: uint32)
      requires View().Valid()
      modifies this
      ensures View() == Advanced(old(View())) && View().Valid()
      ensures rv == old(cursor).At?
      ensures rv ==> next == old(cursor).key && next in clients
    {
      rv, next := false, CLIENTKEY_INVALID;
      if cursor.At? {
        next := cursor.key;
        cursor := After(clients.Keys, cursor.key);
        rv := true;
      } else {
        cursor := Begin(clients.Keys);
      }
    }

    /** Release and erase the clients one by one, from the first on. */
    method Reset()
      modifies this
      ensures View() == State(map[], End)
    {
      while clients.Keys != {}
        decreases clients.Keys
      {
        LeastExists(clients.Keys);
        var k :| IsLeast(clients.Keys, k);
        clients := clients - {k};
      }
      cursor := Begin(clients.Keys);
    }
  }

  // ---------- sweeps ----------

  datatype Event = Create(key: uint32, session: byte) | Delete(key: uint32) | Visit | Clear

  function Step(s: State, e: Event): State {
    match e
    case Create(k, session) => Created(s, k, session)
    case Delete(k) => if k in s.clients then Deleted(s, k) else s
    case Visit => Advanced(s)
    case Clear => State(map[], End)
  }

  /** A sweep: the cursor starts at the first client; `Visit` goes on until it returns false. */
  datatype Sweep = Sweep(state: State, visited: seq<uint32>, stable: set<uint32>)

  function SweepStart(clients: map<uint32, ClientRecord>): Sweep {
    Sweep(State(clients, Begin(clients.Keys)), [], clients.Keys)
  }

  function SweepStep(w: Sweep, e: Event): Sweep {
    Sweep(
      Step(w.state, e),
      if e.Visit? && w.state.cursor.At? then w.visited + [w.state.cursor.key] else w.visited,
      if e.Delete? then w.stable - {e.key} else if e.Clear? then {} else w.stable)
  }

  function Swept(w: Sweep, es: seq<Event>): Sweep {
    if es == [] then w else SweepStep(Swept(w, es[..|es| - 1]), es[|es| - 1])
  }

  /** The call of `get_next_client` that ends the sweep has not happened yet. */
  ghost predicate Unfinished(w: Sweep, es: seq<Event>) {
    forall i :: 0 <= i < |es| && es[i].Visit? ==> Swept(w, es[..i]).state.cursor.At?
  }

  ghost predicate Passed(c: Cursor, k: uint32) {
    c.End? || k < c.key
  }

  /** So far: the visits went up in key order, nothing at or beyond the cursor was visited, and every client that stayed
      registered and lies before the cursor was visited. */
  ghost predicate SweepInv(w: Sweep) {
    && w.state.Valid()
    && w.stable <= w.state.clients.Keys
    && (forall i, j :: 0 <= i < j < |w.visited| ==> w.visited[i] < w.visited[j])
    && (forall i :: 0 <= i < |w.visited| ==> Passed(w.state.cursor, w.visited[i]))
    && (forall k :: k in w.stable && Passed(w.state.cursor, k) ==> k in w.visited)
  }

  lemma StepKeepsSweepInv(w: Sweep, e: Event)
    requires SweepInv(w) && (e.Visit? ==> w.state.cursor.At?)
    ensures SweepInv(SweepStep(w, e))
  {
    var v := SweepStep(w, e);
    if e.Visit? {
      var c := w.state.cursor.key;
      assert v.visited == w.visited + [c];
      assert c in v.visited;
      forall k | k in v.stable && Passed(v.state.cursor, k)
        ensures k in v.visited
      {
        assert k <= c;
        assert k != c ==> k in w.visited;
      }
    }
  }

  lemma {:induction false} SweepKeepsInv(w: Sweep, es: seq<Event>)
    requires SweepInv(w) && Unfinished(w, es)
    ensures SweepInv(Swept(w, es))
  {
    if es != [] {
      var init := es[..|es| - 1];
      assert forall i :: 0 <= i <= |init| ==> es[..i] == init[..i];
      assert init == init[..|init|];
      SweepKeepsInv(w, init);
      StepKeepsSweepInv(Swept(w, init), es[|es| - 1]);
    }
  }

  ghost predicate StaysRegistered(es: seq<Event>, k: uint32) {
    forall i :: 0 <= i < |es| ==> es[i] != Delete(k) && !es[i].Clear?
  }

  lemma {:induction false} StableAreUndeleted(w: Sweep, es: seq<Event>, k: uint32)
    requires k in w.stable && StaysRegistered(es, k)
    ensures k in Swept(w, es).stable
  {
    if es != [] {
      StableAreUndeleted(w, es[..|es| - 1], k);
    }
  }

  /** Sweep completeness: when `get_next_client` next returns false, the visits since the previous false return were in
      strictly increasing key order, and every client that was registered at the start and never deleted was
      visited, whatever other clients were created, replaced or deleted in between. */
  lemma SweepVisitsAll(clients: map<uint32, ClientRecord>, es: seq<Event>)
    requires Unfinished(SweepStart(clients), es)
    requires Swept(SweepStart(clients), es).state.cursor.End?
    ensures var visited := Swept(SweepStart(clients), es).visited;
            && (forall i, j :: 0 <= i < j < |visited| ==> visited[i] < visited[j])
            && (forall k :: k in clients && StaysRegistered(es, k) ==> k in visited)
  {
    var w := SweepStart(clients);
    SweepKeepsInv(w, es);
    forall k | k in clients && StaysRegistered(es, k)
      ensures k in Swept(w, es).visited
    {
      StableAreUndeleted(w, es, k);
    }
  }
}
