/** The liveliness of one client (src/cpp/client/ProxyClient.cpp, `get_state` and `update_state`; the visit of a
    client in src/cpp/processor/Processor.cpp, `check_heartbeats`).  The constructor leaves the counter of tries
    uninitialised, so a client starts with any value of it; the first packet of the client sets it to zero.  Time is a
    parameter of each step. */
module Liveliness {

  import opened Words

  datatype Condition = Alive | Dead | ToRemove

  datatype Reaction = Heartbeats | GetInfo | Removal | NoReaction

  /** The fields of a client that liveliness is about. */
  datatype Client = Client(condition: Condition, timestamp: int, tries: byte, hard: bool, deadTime: int)

  function Looked(c: Client, now: int): Client {
    if c.condition.Alive? && now - c.timestamp >= c.deadTime then c.(condition := Dead) else c
  }

  /** `update_state()` on an incoming packet. */
  function Refreshed(c: Client, now: int): Client {
    c.(condition := Alive, timestamp := now, tries := 0)
  }

  function NextTry(tries: byte): byte {
    (tries + 1) % 0x100
  }

  /** One visit of the sweep: the condition it saw, what it did, and the client afterwards. */
  function Visited(c: Client, now: int, endpointKnown: bool): (Condition, Reaction, Client) {
    var d := Looked(c, now);
    if endpointKnown && d.condition.Alive? then (Alive, Heartbeats, d)
    else if d.hard && d.condition.Dead? then
      var t := NextTry(d.tries);
      (Dead, GetInfo, d.(tries := t, condition := if t == 3 then ToRemove else Dead))
    else if d.hard && d.condition.ToRemove? then (ToRemove, Removal, d)
    else (d.condition, NoReaction, d)
  }

  class ProxyClient {
    var condition: Condition
    var timestamp: int
    var tries: byte
    var hard: bool
    var deadTime: int

    ghost function View(): Client
      reads this
    {
      Client(condition, timestamp, tries, hard, deadTime)
    }

    constructor (now: int, hardCheck: bool, timeout: int, garbage: byte)
      ensures View() == Client(Alive, now, garbage, hardCheck, timeout)
    {
      condition, timestamp, tries, hard, deadTime := Alive, now, garbage, hardCheck, timeout;
    }

    method GetState(now: int) returns (c: Condition)
      modifies this`condition
      ensures View() == Looked(old(View()), now) && c == condition
      ensures old(condition).Alive? ==>
              (c.Alive? <==> now < timestamp + deadTime) && (c.Dead? <==> now >= timestamp + deadTime)
      ensures !old(condition).Alive? ==> c == old(condition)
    {
      if condition.Alive? {
        condition := if now - timestamp < deadTime then Alive else Dead;
      }
      c := condition;
    }

    method UpdateState(next: Condition, now: int)
      modifies this
      ensures next.Alive? ==> View() == Refreshed(old(View()), now)
      ensures !next.Alive? ==> View() == old(View()).(condition := next)
    {
      condition := next;
      if condition.Alive? {
        timestamp := now;
        tries := 0;
      }
    }

    /** The body of the loop of `check_heartbeats` for this client. */
    method Visit(now: int, endpointKnown: bool) returns (reaction: Reaction)
      modifies this
      ensures (reaction, View()) == (var v := Visited(old(View()), now, endpointKnown); (v.1, v.2))
      ensures var seen := Looked(old(View()), now).condition;
              && (reaction.Heartbeats? <==> endpointKnown && seen.Alive?)
              && (reaction.GetInfo? <==> hard && seen.Dead?)
              && (reaction.Removal? <==> hard && seen.ToRemove?)
    {
      var c := GetState(now);
      if endpointKnown && c.Alive? {
        reaction := Heartbeats;
      } else if hard && c.Dead? {
        tries := (tries + 1) % 0x100;
        if tries == 3 {
          UpdateState(ToRemove, now);
        }
        reaction := GetInfo;
      } else if hard && c.ToRemove? {
        reaction := Removal;
      } else {
        reaction := NoReaction;
      }
    }
  }

  // ---------- runs ----------

  datatype Event = Packet(now: int) | Visit(now: int, endpointKnown: bool)

  /** What the sweep saw and did since the last packet, oldest first. */
  datatype Life = Life(client: Client, since: seq<(Condition, Reaction)>)

  function LifeStep(l: Life, e: Event): Life {
    match e
    case Packet(now) => Life(Refreshed(l.client, now), [])
    case Visit(now, known) =>
      var (seen, reaction, client) := Visited(l.client, now, known);
      Life(client, l.since + [(seen, reaction)])
  }

  function Lived(c: Client, es: seq<Event>): Life {
    if es == [] then Life(c, []) else LifeStep(Lived(c, es[..|es| - 1]), es[|es| - 1])
  }

  /** The last `n` visits saw a dead client and asked it for information. */
  ghost predicate EndsDead(since: seq<(Condition, Reaction)>, n: nat) {
    n <= |since| && forall i :: |since| - n <= i < |since| ==> since[i] == (Dead, GetInfo)
  }

  /** Once the counter has been zero, it counts the dead visits since the last packet. */
  ghost predicate CountsDeadVisits(l: Life) {
    && (l.client.condition.Alive? ==> l.client.tries == 0)
    && (l.client.condition.Dead? ==> l.client.tries <= 2 && (l.client.hard ==> EndsDead(l.since, l.client.tries)))
    && (l.client.condition.ToRemove? ==> l.client.hard && l.client.tries == 3 && EndsDead(l.since, 3))
  }

  lemma StepCounts(l: Life, e: Event)
    requires CountsDeadVisits(l)
    requires e.Visit? ==> !l.client.condition.ToRemove?
    ensures CountsDeadVisits(LifeStep(l, e))
  {
  }

  /** The sweep has not removed the client during `es`, so it is still registered. */
  ghost predicate StillRegistered(c: Client, es: seq<Event>) {
    forall i :: 0 <= i < |es| && es[i].Visit? ==>
                  Visited(Lived(c, es[..i]).client, es[i].now, es[i].endpointKnown).1 != Removal
  }

  lemma {:induction false} RunCounts(c: Client, es: seq<Event>)
    requires c.condition.Alive? && c.tries == 0 && StillRegistered(c, es)
    ensures CountsDeadVisits(Lived(c, es))
  {
    if es != [] {
      var init := es[..|es| - 1];
      assert forall i :: 0 <= i <= |init| ==> es[..i] == init[..i];
      assert init[..|init|] == init;
      RunCounts(c, init);
      StepCounts(Lived(c, init), es[|es| - 1]);
    }
  }

  /** In every run of a client whose tries started at zero: the sweep removes it only if it has the hard check and the
      three visits before, with no packet since the first of them, all saw it dead and asked it for information. */
  lemma RemovalNeedsFourVisits(c: Client, es: seq<Event>, now: int, endpointKnown: bool)
    requires c.condition.Alive? && c.tries == 0 && StillRegistered(c, es)
    requires Visited(Lived(c, es).client, now, endpointKnown).1 == Removal
    ensures c.hard && EndsDead(Lived(c, es).since, 3)
    ensures Visited(Lived(c, es).client, now, endpointKnown).0 == ToRemove
  {
    RunCounts(c, es);
    HardNeverChanges(c, es);
  }

  lemma {:induction false} HardNeverChanges(c: Client, es: seq<Event>)
    ensures Lived(c, es).client.hard == c.hard
  {
    if es != [] {
      HardNeverChanges(c, es[..|es| - 1]);
    }
  }

  /** A packet at any point before the removal returns the client to life with no tries, and three more dead visits
      are needed. */
  lemma PacketRevives(c: Client, es: seq<Event>, now: int)
    ensures var l := Lived(c, es + [Packet(now)]);
            l.client.condition.Alive? && l.client.tries == 0 && l.since == []
  {
    assert (es + [Packet(now)])[..|es|] == es;
  }

  /** In every run: a visit less than the dead time after the last packet sees the client alive, and the first visit
      from then on sees it dead. */
  lemma SeenAliveIff(c: Client, es: seq<Event>, heard: int, times: seq<int>, now: int, known: bool)
    requires forall i :: 0 <= i < |times| ==> times[i] < heard + c.deadTime
    ensures var l := Lived(c, es + [Packet(heard)] + Visits(times, known));
            && l.client.condition.Alive? && l.client.timestamp == heard && l.client.deadTime == c.deadTime
            && Visited(l.client, now, known).0 == if now < heard + c.deadTime then Alive else Dead
  {
    StaysAlive(c, es, heard, times, known);
  }

  function Visits(times: seq<int>, known: bool): seq<Event> {
    seq(|times|, i requires 0 <= i < |times| => Visit(times[i], known))
  }

  lemma {:induction false} StaysAlive(c: Client, es: seq<Event>, heard: int, times: seq<int>, known: bool)
    requires forall i :: 0 <= i < |times| ==> times[i] < heard + c.deadTime
    ensures var d := Lived(c, es + [Packet(heard)] + Visits(times, known)).client;
            d.condition.Alive? && d.timestamp == heard && d.deadTime == c.deadTime
  {
    hide LifeStep;
    var all := es + [Packet(heard)] + Visits(times, known);
    if times == [] {
      assert all == es + [Packet(heard)] && all[..|es|] == es;
      DeadTimeNeverChanges(c, es);
      HeardIsAlive(Lived(c, es), heard);
    } else {
      var (front, now) := (times[..|times| - 1], times[|times| - 1]);
      StaysAlive(c, es, heard, front, known);
      var before := es + [Packet(heard)] + Visits(front, known);
      assert all == before + [Visit(now, known)] && all[..|all| - 1] == before;
      EarlyVisit(Lived(c, before), now, known);
    }
  }

  lemma HeardIsAlive(l: Life, heard: int)
    ensures var d := LifeStep(l, Packet(heard)).client;
            d.condition.Alive? && d.timestamp == heard && d.deadTime == l.client.deadTime
  {
  }

  lemma EarlyVisit(l: Life, now: int, known: bool)
    requires l.client.condition.Alive? && now < l.client.timestamp + l.client.deadTime
    ensures LifeStep(l, Visit(now, known)).client == l.client
  {
  }

  lemma {:induction false} DeadTimeNeverChanges(c: Client, es: seq<Event>)
    ensures Lived(c, es).client.deadTime == c.deadTime
  {
    if es != [] {
      DeadTimeNeverChanges(c, es[..|es| - 1]);
    }
  }

  /** A client without the hard check is never asked for information and never removed. */
  lemma {:induction false} SoftIsLeftAlone(c: Client, es: seq<Event>, i: nat)
    requires !c.hard && !c.condition.ToRemove? && i < |Lived(c, es).since|
    ensures Lived(c, es).since[i].1 == Heartbeats || Lived(c, es).since[i].1 == NoReaction
    ensures !Lived(c, es).client.condition.ToRemove?
  {
    var init := es[..|es| - 1];
    HardNeverChanges(c, init);
    if es[|es| - 1].Visit? && i < |Lived(c, init).since| {
      SoftIsLeftAlone(c, init, i);
    } else {
      SoftNeverToRemove(c, init);
    }
    SoftNeverToRemove(c, es);
  }

  lemma {:induction false} SoftNeverToRemove(c: Client, es: seq<Event>)
    requires !c.hard && !c.condition.ToRemove?
    ensures !Lived(c, es).client.condition.ToRemove?
  {
    if es != [] {
      SoftNeverToRemove(c, es[..|es| - 1]);
      HardNeverChanges(c, es[..|es| - 1]);
    }
  }

  // ---------- the uninitialised counter ----------

  /** The number of dead visits, each with a request for information, before the removal, for a counter that starts at
      `tries`. */
  function DeadVisitsLeft(tries: byte): nat {
    if tries < 3 then 3 - tries else 0x103 - tries
  }

  function AfterDeadVisits(c: Client, n: nat): Client {
    if n == 0 then c else Visited(AfterDeadVisits(c, n - 1), c.timestamp, true).2
  }

  /** A dead client with the hard check becomes removable after exactly this many visits without a packet. */
  lemma {:induction false} DeadVisitsCounted(c: Client, n: nat)
    requires c.condition.Dead? && c.hard && n <= DeadVisitsLeft(c.tries)
    ensures var d := AfterDeadVisits(c, n);
            && d == c.(tries := (c.tries + n) % 0x100, condition := d.condition)
            && d.condition == if n < DeadVisitsLeft(c.tries) then Dead else ToRemove
  {
    hide Visited, NextTry, DeadVisitsLeft;
    if n == 0 {
      SomeVisitsLeft(c.tries);
    } else {
      DeadVisitsCounted(c, n - 1);
      OneDeadVisit(AfterDeadVisits(c, n - 1), c.timestamp);
      TriesAfter(c.tries, n);
    }
  }

  lemma SomeVisitsLeft(tries: byte)
    ensures DeadVisitsLeft(tries) > 0 && (tries + 0) % 0x100 == tries
  {
  }

  lemma TriesAfter(tries: byte, n: nat)
    requires 1 <= n <= DeadVisitsLeft(tries)
    ensures NextTry((tries + (n - 1)) % 0x100) == (tries + n) % 0x100
    ensures (tries + n) % 0x100 == 3 <==> n == DeadVisitsLeft(tries)
  {
    var before := tries + (n - 1);
    assert before % 0x100 == if before < 0x100 then before else before - 0x100;
    assert (before + 1) % 0x100 == if before + 1 < 0x100 then before + 1 else before + 1 - 0x100;
  }

  lemma OneDeadVisit(c: Client, now: int)
    requires c.condition.Dead? && c.hard
    ensures var t := NextTry(c.tries);
            Visited(c, now, true).2 == c.(tries := t, condition := if t == 3 then ToRemove else Dead)
  {
  }

  /** Hence exactly three requests come before the removal exactly when the counter started at zero. */
  lemma ThreeTriesIffZero(c: Client)
    requires c.condition.Dead? && c.hard
    ensures (!AfterDeadVisits(c, 2).condition.ToRemove? && AfterDeadVisits(c, 3).condition.ToRemove?) <==> c.tries == 0
  {
    var k := DeadVisitsLeft(c.tries);
    if k >= 2 {
      DeadVisitsCounted(c, 2);
    } else {
      DeadVisitsCounted(c, 1);
      assert AfterDeadVisits(c, 1).condition.ToRemove?;
      assert AfterDeadVisits(c, 2) == Visited(AfterDeadVisits(c, 1), c.timestamp, true).2;
    }
    if k >= 3 {
      DeadVisitsCounted(c, 3);
    }
  }

  /** A counter that starts at 2 allows one request before the removal, one that starts at 3 allows 256. */
  lemma StrayCounters(c: Client)
    requires c.condition.Dead? && c.hard
    ensures c.tries == 2 ==> AfterDeadVisits(c, 1).condition.ToRemove?
    ensures c.tries == 3 ==> AfterDeadVisits(c, 255).condition.Dead? && AfterDeadVisits(c, 256).condition.ToRemove?
  {
    hide Visited, AfterDeadVisits;
    if c.tries == 2 {
      DeadVisitsCounted(c, 1);
    } else if c.tries == 3 {
      DeadVisitsCounted(c, 255);
      DeadVisitsCounted(c, 256);
    }
  }
}
