/** One whole call of `check_heartbeats` (src/cpp/processor/Processor.cpp:959-1042): sweep, liveliness and removal
    together. */
module HeartbeatSweeps {

  import opened Words
  import R = Roots
  import P = Processors
  import L = Liveliness

  /** What a visit does to a client, and what it leaves of it. */
  function Outcome(client: L.Client, now: int, reachable: bool): (L.Reaction, L.Client) {
    var (_, reaction, left) := L.Visited(client, now, reachable);
    (reaction, left)
  }

  /** How many keys the sweep can still come to. */
  function Left(more: bool, key: int): int {
    if more then 0x1_0000_0000 - key else 0
  }

  function KeysOf(visits: seq<(uint32, L.Reaction)>): set<uint32> {
    set v | v in visits :: v.0
  }

  /** These clients were visited, each once and in the order of the keys, with what their state asked for. */
  ghost predicate Visited(visits: seq<(uint32, L.Reaction)>, was: map<uint32, L.Client>, reachable: set<uint32>,
                          now: uint32 -> int, keys: set<uint32>) {
    && KeysOf(visits) == keys <= was.Keys
    && (forall i, j :: 0 <= i < j < |visits| ==> visits[i].0 < visits[j].0)
    && (forall i :: 0 <= i < |visits| ==>
          var (key, done) := visits[i];
          key in was && done == Outcome(was[key], now(key), key in reachable).0)
  }

  lemma OneMoreVisit(visits: seq<(uint32, L.Reaction)>, was: map<uint32, L.Client>, reachable: set<uint32>,
                     now: uint32 -> int, keys: set<uint32>, key: uint32, done: L.Reaction)
    requires Visited(visits, was, reachable, now, keys) && key in was && forall k :: k in keys ==> k < key
    requires done == Outcome(was[key], now(key), key in reachable).0
    ensures Visited(visits + [(key, done)], was, reachable, now, keys + {key})
  {
    hide Outcome;
    var next := visits + [(key, done)];
    assert forall v :: v in next <==> v in visits || v == (key, done);
    assert forall i :: 0 <= i < |visits| ==> visits[i] in visits && visits[i].0 in keys;
  }

  function Before(was: map<uint32, L.Client>, more: bool, key: uint32): set<uint32> {
    set k | k in was && (!more || k < key)
  }

  class Sweeper<EndPoint(==)> {
    const processor: P.Processor<EndPoint>
    /** The liveliness of the registered clients. */
    var life: map<uint32, L.Client>

    ghost predicate Valid()
      reads this, processor.server, processor.root
    {
      processor.Valid() && life.Keys == processor.root.clients.Keys
    }

    constructor (processor: P.Processor<EndPoint>, life: map<uint32, L.Client>)
      requires processor.Valid() && life.Keys == processor.root.clients.Keys
      ensures Valid() && this.processor == processor && this.life == life
    {
      this.processor, this.life := processor, life;
    }

    /** The session maps are inverses and know exactly the registered clients. */
    ghost predicate Agreeing()
      reads processor.server, processor.root
    {
      processor.View().sessions.Inverse() && processor.View().SameClients()
    }

    /** The body of the loop. */
    method VisitClient(key: uint32, now: uint32 -> int) returns (done: L.Reaction)
      requires Valid() && key in life
      modifies processor.server, processor.root, this`life
      ensures Valid()
      ensures var (reaction, client) := Outcome(old(life)[key], now(key),
                                                key in old(processor.server.clientToEndpoint));
              if reaction.Removal?
              then processor.View() == P.ClientExpired(old(processor.View()), key) && life == old(life) - {key}
              else processor.View() == old(processor.View()) && life == old(life)[key := client]
      ensures done == Outcome(old(life)[key], now(key), key in old(processor.server.clientToEndpoint)).0
      ensures old(Agreeing()) ==> Agreeing()
    {
      var endpoint := processor.server.GetEndpoint(key);
      var (_, reaction, client) := L.Visited(life[key], now(key), endpoint.Found?);
      if reaction.Removal? {
        processor.RemoveDeadClient(key);
        life := life - {key};
      } else {
        life := life[key := client];
      }
      done := reaction;
    }

    /** `get_next_client` moves nothing but the cursor. */
    method NextClient() returns (more: bool, key: uint32)
      requires Valid()
      modifies processor.root
      ensures Valid() && processor.root.clients == old(processor.root.clients)
      ensures old(Agreeing()) ==> Agreeing()
      ensures more == old(processor.root.cursor).At?
      ensures if more then key == old(processor.root.cursor).key && key in life
                           && processor.root.cursor == R.After(processor.root.clients.Keys, key)
              else processor.root.cursor == R.Begin(processor.root.clients.Keys)
    {
      more, key := processor.root.GetNextClient();
    }

    /** A client as a visit leaves it, compared with how the sweep found it. */
    ghost predicate Settled(was: map<uint32, L.Client>, reachable: set<uint32>, key: uint32, now: uint32 -> int)
      requires key in was
      reads this`life, processor.server
    {
      var (reaction, client) := Outcome(was[key], now(key), key in reachable);
      if reaction.Removal? then key !in life && key !in processor.server.clientToEndpoint
      else key in life && life[key] == client && (key in processor.server.clientToEndpoint <==> key in reachable)
    }

    ghost predicate Untouched(was: map<uint32, L.Client>, reachable: set<uint32>, key: uint32)
      requires key in was
      reads this`life, processor.server
    {
      key in life && life[key] == was[key] && (key in processor.server.clientToEndpoint <==> key in reachable)
    }

    /** Everybody before `key` has been visited, nobody from `key` on. */
    ghost predicate Progress(was: map<uint32, L.Client>, reachable: set<uint32>, now: uint32 -> int, more: bool,
                             key: uint32)
      reads this`life, processor.server
    {
      && life.Keys <= was.Keys
      && (forall k :: k in was && (!more || k < key) ==> Settled(was, reachable, k, now))
      && (forall k :: k in was && more && k >= key ==> Untouched(was, reachable, k))
    }

    /** No client lies between `key` and the cursor. */
    ghost predicate StandsBehind(key: uint32)
      reads this`life, processor.root
    {
      match processor.root.cursor
      case End => forall k :: k in life ==> k <= key
      case At(c) => key < c && forall k :: k in life && key < k ==> c <= k
    }

    /** A visit settles one client and leaves the others alone. */
    method Settle(key: uint32, now: uint32 -> int, ghost was: map<uint32, L.Client>, ghost reachable: set<uint32>)
      returns (done: L.Reaction)
      requires Valid() && key in was && Progress(was, reachable, now, true, key)
      requires processor.root.cursor == R.After(processor.root.clients.Keys, key)
      modifies processor.server, processor.root, this`life
      ensures Valid() && life.Keys <= was.Keys
      ensures StandsBehind(key)
      ensures forall k :: k in was && k <= key ==> Settled(was, reachable, k, now)
      ensures forall k :: k in was && k > key ==> Untouched(was, reachable, k)
      ensures done == Outcome(was[key], now(key), key in reachable).0
      ensures old(Agreeing()) ==> Agreeing()
    {
      hide Outcome, Agreeing, R.After;
      assert Untouched(was, reachable, key);
      done := VisitClient(key, now);
    }

    /** The cursor stands at the first client behind `key`, so nobody is passed over. */
    method MoveOn(key: uint32, now: uint32 -> int, ghost was: map<uint32, L.Client>, ghost reachable: set<uint32>)
      returns (more: bool, next: uint32)
      requires Valid() && life.Keys <= was.Keys
      requires StandsBehind(key)
      requires forall k :: k in was && k <= key ==> Settled(was, reachable, k, now)
      requires forall k :: k in was && k > key ==> Untouched(was, reachable, k)
      modifies processor.root
      ensures Valid() && Progress(was, reachable, now, more, next)
      ensures if more
              then next in life && next > key && processor.root.cursor == R.After(processor.root.clients.Keys, next)
              else processor.root.cursor == R.Begin(processor.root.clients.Keys)
      ensures Before(was, more, next) == Before(was, true, key) + (if key in was then {key} else {})
      ensures old(Agreeing()) ==> Agreeing()
    {
      hide Outcome, Agreeing, Settled;
      more, next := NextClient();
    }

    /** From a rewound cursor, one call visits every client once, in the order of the keys, and does to each what its
        state at that time asks for: the removable ones go with their sessions, the others are as one visit leaves
        them. */
    method CheckHeartbeats(now: uint32 -> int) returns (visits: seq<(uint32, L.Reaction)>)
      requires Valid() && processor.root.cursor == R.Begin(processor.root.clients.Keys)
      modifies processor.server, processor.root, this`life
      ensures Valid() && processor.root.cursor == R.Begin(processor.root.clients.Keys)
      ensures life.Keys <= old(life).Keys
      ensures forall k :: k in old(life) ==> Settled(old(life), old(processor.server.clientToEndpoint).Keys, k, now)
      ensures Visited(visits, old(life), old(processor.server.clientToEndpoint).Keys, now, old(life).Keys)
      ensures old(Agreeing()) ==> Agreeing()
    {
      hide Outcome, Agreeing, Settled, Untouched, StandsBehind;
      ghost var was, reachable := life, processor.server.clientToEndpoint.Keys;
      FirstOfAll(was, reachable);
      visits := [];
      var more, key := NextClient();
      while more
        invariant Visited(visits, was, reachable, now, Before(was, more, key))
        invariant Valid() && Progress(was, reachable, now, more, key)
        invariant more ==> key in life && processor.root.cursor == R.After(processor.root.clients.Keys, key)
        invariant !more ==> processor.root.cursor == R.Begin(processor.root.clients.Keys)
        invariant old(Agreeing()) ==> Agreeing()
        decreases Left(more, key)
      {
        var done := Settle(key, now, was, reachable);
        OneMoreVisit(visits, was, reachable, now, Before(was, true, key), key, done);
        visits := visits + [(key, done)];
        more, key := MoveOn(key, now, was, reachable);
      }
    }

    lemma FirstOfAll(was: map<uint32, L.Client>, reachable: set<uint32>)
      requires was == life && reachable == processor.server.clientToEndpoint.Keys
      ensures forall k :: k in was ==> Untouched(was, reachable, k)
    {
    }
  }
}
