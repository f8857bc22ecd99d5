/** Whole runs of reads over one topic: what a reader receives, in which order, and what it misses
    (src/cpp/middleware/ced/CedEntities.cpp, `read` and `CedDataReader`). */
module CedDelivery {

  import opened Arithmetic
  import opened SeqNums
  import opened CedTopics
  import opened Words

  /** The entry that a woken waiter looks at: whatever sits in the slot of its next one. */
  function WakeEntry(n: nat, p: nat, size: nat): (j: nat)
    requires p <= n && 1 <= size
    ensures j <= n
  {
    var q := EffectivePosition(n, p);
    if q == n then n
    else
      ResidentSharesSlot(n, q, size);
      Resident(n, q, size)
  }

  /** A woken waiter moves on by one, if anything seems to be there. */
  function WakePosition(n: nat, p: nat): (q: nat)
    requires p <= n
    ensures p <= q <= n
  {
    if EffectivePosition(n, p) == n then p else EffectivePosition(n, p) + 1
  }

  /** `CedDataReader`: the only state of a reader is its 16-bit `last_read_`. */
  class CedDataReader {
    const topic: CedGlobalTopic
    const access: Access
    var lastRead: uint16
    ghost var position: nat

    ghost predicate Valid()
      reads this, topic
    {
      position <= |topic.log| && lastRead == Image(position - 1)
    }

    constructor (topic: CedGlobalTopic, access: Access)
      ensures Valid() && this.topic == topic && this.access == access
      ensures lastRead == 0xFFFF && position == 0
    {
      this.topic := topic;
      this.access := access;
      lastRead := 0xFFFF;
      position := 0;
    }

    method Read() returns (rv: bool, data: seq<byte>)
      requires Valid() && topic.Valid()
      modifies this
      ensures Valid()
      ensures position == NextPosition(topic.log, old(position), access, topic.size)
      ensures var i := ReadIndex(topic.log, old(position), access, topic.size);
              rv == (i < |topic.log|) && (rv ==> data == topic.log[i].data)
    {
      rv, data, lastRead := topic.Read(lastRead, access, position);
      position := NextPosition(topic.log, position, access, topic.size);
    }

    /** One evaluation of the condition on which a read waits that found nothing. */
    method Wake() returns (rv: bool, data: seq<byte>)
      requires Valid() && topic.Valid()
      modifies this
      ensures Valid()
      ensures position == WakePosition(|topic.log|, old(position))
      ensures var j := WakeEntry(|topic.log|, old(position), topic.size);
              rv == (j < |topic.log| && Permitted(topic.log, j, access)) && (rv ==> data == topic.log[j].data)
    {
      rv, data, lastRead := topic.WaitCheck(lastRead, access, position);
      position := WakePosition(|topic.log|, position);
    }
  }

  /** One reader reads when the log has the lengths `ns`, in this order; `log` is the log at the end. */
  ghost predicate ReadsAt(ns: seq<nat>, from: nat, log: seq<Sample>) {
    ns == [] || (from <= ns[0] <= |log| && ReadsAt(ns[1..], ns[0], log))
  }

  lemma ReadsFromEarlier(ns: seq<nat>, from: nat, earlier: nat, log: seq<Sample>)
    requires ReadsAt(ns, from, log) && earlier <= from
    ensures ReadsAt(ns, earlier, log)
  {
  }

  ghost function AfterRead(log: seq<Sample>, n: nat, p: nat, access: Access, size: nat): (q: nat)
    requires p <= n <= |log|
    ensures p <= q <= n
  {
    NextPosition(log[..n], p, access, size)
  }

  ghost function Received(log: seq<Sample>, n: nat, p: nat, access: Access, size: nat): seq<nat>
    requires p <= n <= |log|
  {
    var i := ReadIndex(log[..n], p, access, size);
    if i < n then [i] else []
  }

  /** The log entries handed out by the successive non-waiting reads. */
  ghost function Deliveries(log: seq<Sample>, ns: seq<nat>, p: nat, access: Access, size: nat): seq<nat>
    requires ReadsAt(ns, p, log)
  {
    if ns == [] then []
    else
      var q := AfterRead(log, ns[0], p, access, size);
      ReadsFromEarlier(ns[1..], ns[0], q, log);
      Received(log, ns[0], p, access, size) + Deliveries(log, ns[1..], q, access, size)
  }

  ghost function FinalPosition(log: seq<Sample>, ns: seq<nat>, p: nat, access: Access, size: nat): nat
    requires ReadsAt(ns, p, log)
  {
    if ns == [] then p
    else
      var q := AfterRead(log, ns[0], p, access, size);
      ReadsFromEarlier(ns[1..], ns[0], q, log);
      FinalPosition(log, ns[1..], q, access, size)
  }

  /** Entry `i` had not been passed by the reader at some read, and was then more than `size` writes old. */
  ghost predicate Overtaken(log: seq<Sample>, ns: seq<nat>, p: nat, access: Access, size: nat, i: nat)
    requires ReadsAt(ns, p, log)
  {
    ns != [] &&
    (|| p <= i < ns[0] - size
     || (var q := AfterRead(log, ns[0], p, access, size);
         ReadsFromEarlier(ns[1..], ns[0], q, log);
         Overtaken(log, ns[1..], q, access, size, i)))
  }

  /** Sixteen bits show a lag of `n - p` well enough. */
  predicate LagVisible(n: nat, p: nat, size: nat) {
    n - p < MAX || (n - p) % MAX >= size
  }

  ghost predicate LagsVisible(log: seq<Sample>, ns: seq<nat>, p: nat, access: Access, size: nat)
    requires ReadsAt(ns, p, log)
  {
    ns == [] ||
    (&& LagVisible(ns[0], p, size)
     && (var q := AfterRead(log, ns[0], p, access, size);
         ReadsFromEarlier(ns[1..], ns[0], q, log);
         LagsVisible(log, ns[1..], q, access, size)))
  }

  lemma ReceivedByOneRead(log: seq<Sample>, n: nat, p: nat, access: Access, size: nat)
    requires p <= n <= |log|
    ensures var r := Received(log, n, p, access, size);
            |r| <= 1 && (r != [] ==> p <= r[0] < AfterRead(log, n, p, access, size) && Permitted(log, r[0], access))
  {
    var i := ReadIndex(log[..n], p, access, size);
    assert i < n ==> Permitted(log[..n], i, access);
  }

  /** Permitted entries from `p` on, in log order, none twice. */
  ghost predicate InOrder(log: seq<Sample>, ds: seq<nat>, p: nat, access: Access) {
    && (forall k :: 0 <= k < |ds| ==> p <= ds[k] < |log| && Permitted(log, ds[k], access))
    && (forall k, m :: 0 <= k < m < |ds| ==> ds[k] < ds[m])
  }

  /** What one turn hands out goes before what is handed out from behind it. */
  lemma InOrderJoins(log: seq<Sample>, r: seq<nat>, rest: seq<nat>, p: nat, q: nat, access: Access)
    requires |r| <= 1 && (r != [] ==> p <= r[0] < q && r[0] < |log| && Permitted(log, r[0], access))
    requires p <= q && InOrder(log, rest, q, access)
    ensures InOrder(log, r + rest, p, access)
  {
    var ds := r + rest;
    hide Permitted;
    forall k | 0 <= k < |ds|
      ensures p <= ds[k] < |log| && Permitted(log, ds[k], access)
    {
      assert ds[k] == if k < |r| then r[k] else rest[k - |r|];
    }
    forall k, m | 0 <= k < m < |ds|
      ensures ds[k] < ds[m]
    {
      assert ds[m] == rest[m - |r|];
      assert ds[k] == if k < |r| then r[k] else rest[k - |r|];
    }
  }

  /** In every run of reads, whatever the lags: entries are handed out in log order, none twice, and only permitted
      ones. */
  lemma {:induction false} DeliveredInOrder(log: seq<Sample>, ns: seq<nat>, p: nat, access: Access, size: nat)
    requires ReadsAt(ns, p, log)
    ensures InOrder(log, Deliveries(log, ns, p, access, size), p, access)
  {
    if ns != [] {
      var q := AfterRead(log, ns[0], p, access, size);
      hide Received, AfterRead, Permitted, InOrder;
      ReadsFromEarlier(ns[1..], ns[0], q, log);
      DeliveredInOrder(log, ns[1..], q, access, size);
      var r := Received(log, ns[0], p, access, size);
      ReceivedByOneRead(log, ns[0], p, access, size);
      InOrderJoins(log, r, Deliveries(log, ns[1..], q, access, size), p, q, access);
    }
  }

  /** A read starts at the reader's own position, or at the oldest retained entry if that is later, exactly when the
      lag is visible. */
  lemma StartRightIffLagVisible(n: nat, p: nat, size: nat)
    requires p <= n && 1 <= size <= ADD_RANGE
    ensures Start(n, p, size) == Max(p, n - size) <==> LagVisible(n, p, size)
    ensures Start(n, p, size) >= Max(p, n - size)
  {
  }

  /** A permitted entry that is neither passed nor overwritten lies before the place where the read starts. */
  ghost predicate Blind(log: seq<Sample>, n: nat, p: nat, access: Access, size: nat)
    requires p <= n <= |log|
  {
    exists i :: Max(p, n - size) <= i < Start(n, p, size) && Permitted(log, i, access)
  }

  /** One read skips only overwritten entries of those it may have, if and only if no such entry is in the way. */
  lemma OneReadSkipsIff(log: seq<Sample>, n: nat, p: nat, access: Access, size: nat)
    requires p <= n <= |log| && 1 <= size <= ADD_RANGE
    ensures (forall i :: p <= i < AfterRead(log, n, p, access, size) && Permitted(log, i, access) ==>
                           i in Received(log, n, p, access, size) || i < n - size)
            <==> !Blind(log, n, p, access, size)
    ensures AfterRead(log, n, p, access, size) >= Start(n, p, size)
  {
    StartRightIffLagVisible(n, p, size);
    var (start, r) := (Start(n, p, size), ReadIndex(log[..n], p, access, size));
    if Blind(log, n, p, access, size) {
      var i :| Max(p, n - size) <= i < start && Permitted(log, i, access);
      assert i !in Received(log, n, p, access, size);
    } else {
      forall i | p <= i < AfterRead(log, n, p, access, size) && Permitted(log, i, access)
        ensures i in Received(log, n, p, access, size) || i < n - size
      {
        assert Permitted(log[..n], i, access);
        assert i == r || i < start;
      }
    }
  }

  /** With a visible lag nothing is in the way; for a reader that may have everything, that is the only case. */
  lemma BlindNeedsInvisibleLag(log: seq<Sample>, n: nat, p: nat, access: Access, size: nat)
    requires p <= n <= |log| && 1 <= size <= ADD_RANGE
    ensures Blind(log, n, p, access, size) ==> !LagVisible(n, p, size)
    ensures access.CompleteAccess? ==> (Blind(log, n, p, access, size) <==> !LagVisible(n, p, size))
  {
    StartRightIffLagVisible(n, p, size);
    if access.CompleteAccess? && !LagVisible(n, p, size) {
      assert Permitted(log, Max(p, n - size), access);
    }
  }

  ghost predicate NeverBlind(log: seq<Sample>, ns: seq<nat>, p: nat, access: Access, size: nat)
    requires ReadsAt(ns, p, log)
  {
    ns == [] ||
    (&& !Blind(log, ns[0], p, access, size)
     && (var q := AfterRead(log, ns[0], p, access, size);
         ReadsFromEarlier(ns[1..], ns[0], q, log);
         NeverBlind(log, ns[1..], q, access, size)))
  }

  /** A permitted entry that the reader has passed was handed to it, or had been overwritten before the reader came to
      it. */
  ghost predicate Accounted(log: seq<Sample>, ns: seq<nat>, p: nat, access: Access, size: nat, i: nat)
    requires ReadsAt(ns, p, log)
  {
    p <= i < FinalPosition(log, ns, p, access, size) && i < |log| && Permitted(log, i, access) ==>
      i in Deliveries(log, ns, p, access, size) || Overtaken(log, ns, p, access, size, i)
  }

  lemma {:induction false} NeverBlindAccounts(log: seq<Sample>, ns: seq<nat>, p: nat, access: Access, size: nat, i: nat)
    requires ReadsAt(ns, p, log) && 1 <= size <= ADD_RANGE && NeverBlind(log, ns, p, access, size)
    ensures Accounted(log, ns, p, access, size, i)
  {
    hide Permitted, Received, AfterRead, Blind;
    if ns != [] {
      var q := AfterRead(log, ns[0], p, access, size);
      ReadsFromEarlier(ns[1..], ns[0], q, log);
      OneReadSkipsIff(log, ns[0], p, access, size);
      NeverBlindAccounts(log, ns[1..], q, access, size, i);
    }
  }

  lemma {:induction false} PositionsGrow(log: seq<Sample>, ns: seq<nat>, p: nat, access: Access, size: nat, i: nat)
    requires ReadsAt(ns, p, log)
    ensures p <= FinalPosition(log, ns, p, access, size)
    ensures Overtaken(log, ns, p, access, size, i) ==> p <= i
  {
    hide AfterRead;
    if ns != [] {
      var q := AfterRead(log, ns[0], p, access, size);
      ReadsFromEarlier(ns[1..], ns[0], q, log);
      PositionsGrow(log, ns[1..], q, access, size, i);
    }
  }

  /** A retained entry that the first read does not hand out is lost, if that read passes it or the later reads lose
      it. */
  lemma StaysLost(log: seq<Sample>, ns: seq<nat>, p: nat, access: Access, size: nat, i: nat)
    requires ReadsAt(ns, p, log) && ns != [] && p <= i < |log| && Permitted(log, i, access)
    requires i !in Received(log, ns[0], p, access, size) && i >= ns[0] - size
    requires ReadsAt(ns[1..], AfterRead(log, ns[0], p, access, size), log)
    requires var q := AfterRead(log, ns[0], p, access, size); i < q || !Accounted(log, ns[1..], q, access, size, i)
    ensures !Accounted(log, ns, p, access, size, i)
  {
    hide Permitted, Received, AfterRead;
    var q := AfterRead(log, ns[0], p, access, size);
    ReadsFromEarlier(ns[1..], ns[0], q, log);
    PositionsGrow(log, ns[1..], q, access, size, i);
    if i < q {
      DeliveredInOrder(log, ns[1..], q, access, size);
      var later := Deliveries(log, ns[1..], q, access, size);
      assert i !in later;
    }
    assert Deliveries(log, ns, p, access, size) ==
           Received(log, ns[0], p, access, size) + Deliveries(log, ns[1..], q, access, size);
  }

  /** The entry that a blind read passes over is handed out by no read, and no read finds it overwritten. */
  lemma {:induction false} BlindReadLoses(log: seq<Sample>, ns: seq<nat>, p: nat, access: Access, size: nat)
    returns (i: nat)
    requires ReadsAt(ns, p, log) && 1 <= size <= ADD_RANGE && !NeverBlind(log, ns, p, access, size)
    ensures p <= i < |log| && Permitted(log, i, access) && !Accounted(log, ns, p, access, size, i)
  {
    var n := ns[0];
    var q := AfterRead(log, n, p, access, size);
    ReadsFromEarlier(ns[1..], n, q, log);
    StartRightIffLagVisible(n, p, size);
    OneReadSkipsIff(log, n, p, access, size);
    ReceivedByOneRead(log, n, p, access, size);
    hide Start, Permitted, Accounted;
    if Blind(log, n, p, access, size) {
      i :| Max(p, n - size) <= i < Start(n, p, size) && Permitted(log, i, access);
      BlindEntryNotReceived(log, n, p, access, size, i);
    } else {
      i := BlindReadLoses(log, ns[1..], q, access, size);
    }
    StaysLost(log, ns, p, access, size, i);
  }

  lemma BlindEntryNotReceived(log: seq<Sample>, n: nat, p: nat, access: Access, size: nat, i: nat)
    requires p <= n <= |log| && i < Start(n, p, size)
    ensures i !in Received(log, n, p, access, size)
  {
  }

  /** Over whole runs of reads: only overwritten entries are skipped if and only if no read is blind. */
  lemma OnlyOverwrittenSkippedIff(log: seq<Sample>, ns: seq<nat>, p: nat, access: Access, size: nat)
    requires ReadsAt(ns, p, log) && 1 <= size <= ADD_RANGE
    ensures (forall i :: Accounted(log, ns, p, access, size, i)) <==> NeverBlind(log, ns, p, access, size)
  {
    if NeverBlind(log, ns, p, access, size) {
      forall i
        ensures Accounted(log, ns, p, access, size, i)
      {
        NeverBlindAccounts(log, ns, p, access, size, i);
      }
    } else {
      var i := BlindReadLoses(log, ns, p, access, size);
    }
  }

  /** At most 65536 - size writes between consecutive reads (65535 before the first) keep every lag visible. */
  ghost predicate ShortGaps(ns: seq<nat>, from: nat, gap: nat) {
    ns == [] || (ns[0] - from <= gap && ShortGaps(ns[1..], ns[0], gap))
  }

  lemma BacklogIsShort(log: seq<Sample>, n: nat, p: nat, access: Access, size: nat)
    requires p <= n <= |log| && 1 <= size
    ensures n - AfterRead(log, n, p, access, size) < size
  {
  }

  lemma {:induction false} VisibleLagsNeverBlind(log: seq<Sample>, ns: seq<nat>, p: nat, access: Access, size: nat)
    requires ReadsAt(ns, p, log) && 1 <= size <= ADD_RANGE && LagsVisible(log, ns, p, access, size)
    ensures NeverBlind(log, ns, p, access, size)
  {
    hide Blind, LagVisible, AfterRead;
    if ns != [] {
      var q := AfterRead(log, ns[0], p, access, size);
      ReadsFromEarlier(ns[1..], ns[0], q, log);
      BlindNeedsInvisibleLag(log, ns[0], p, access, size);
      VisibleLagsNeverBlind(log, ns[1..], q, access, size);
    }
  }

  lemma {:induction false} ShortGapsAreVisible(log: seq<Sample>, ns: seq<nat>, p: nat, access: Access, size: nat,
                                               from: nat)
    requires ReadsAt(ns, p, log) && 1 <= size <= ADD_RANGE
    requires from - size < p <= from && ShortGaps(ns, from, MAX - size)
    ensures LagsVisible(log, ns, p, access, size)
  {
    if ns != [] {
      var q := AfterRead(log, ns[0], p, access, size);
      ReadsFromEarlier(ns[1..], ns[0], q, log);
      BacklogIsShort(log, ns[0], p, access, size);
      ShortGapsAreVisible(log, ns[1..], q, access, size, ns[0]);
    }
  }

  /** Fewer than 65536 writes between two reads are not enough: with 15 samples of the first read still pending, 65531
      further writes look like a lag of 10, and six retained samples are skipped without having been overwritten. */
  lemma BlindSpot(log: seq<Sample>)
    requires |log| == 65547 && forall n :: 0 <= n < |log| ==> log[n].src.InternalSource?
    ensures var ns := [16, 65547];
            && ReadsAt(ns, 0, log)
            && ns[1] - ns[0] < MAX
            && Deliveries(log, ns, 0, CompleteAccess, HISTORY_SIZE) == [0, 65537]
            && Permitted(log, 65531, CompleteAccess)
            && !Overtaken(log, ns, 0, CompleteAccess, HISTORY_SIZE, 65531)
  {
    var ns := [16, 65547];
    assert ns[1..] == [65547] && ns[1..][1..] == [];
    assert ReadIndex(log[..16], 0, CompleteAccess, HISTORY_SIZE) == 0;
    assert log[..65547] == log;
    assert ReadIndex(log, 1, CompleteAccess, HISTORY_SIZE) == 65537;
    assert ReadsAt([65547], 1, log) && ReadsAt([], 65538, log);
    assert Deliveries(log, [65547], 1, CompleteAccess, HISTORY_SIZE) == [65537];
    assert !Overtaken(log, [65547], 1, CompleteAccess, HISTORY_SIZE, 65531);
  }

  // ---------- reads that wait ----------

  /** A read (`wake` is false) or a woken waiter's look, when the log has `n` entries. */
  datatype Turn = Turn(n: nat, wake: bool)

  ghost predicate TurnsAt(turns: seq<Turn>, from: nat, log: seq<Sample>) {
    turns == [] || (from <= turns[0].n <= |log| && TurnsAt(turns[1..], turns[0].n, log))
  }

  lemma TurnsFromEarlier(turns: seq<Turn>, from: nat, earlier: nat, log: seq<Sample>)
    requires TurnsAt(turns, from, log) && earlier <= from
    ensures TurnsAt(turns, earlier, log)
  {
  }

  ghost function Handed(log: seq<Sample>, t: Turn, p: nat, access: Access, size: nat): seq<nat>
    requires p <= t.n <= |log| && 1 <= size
  {
    if !t.wake then Received(log, t.n, p, access, size)
    else
      var j := WakeEntry(t.n, p, size);
      if j < t.n && Permitted(log, j, access) then [j] else []
  }

  ghost function AfterTurn(log: seq<Sample>, t: Turn, p: nat, access: Access, size: nat): (q: nat)
    requires p <= t.n <= |log|
    ensures p <= q <= t.n
  {
    if t.wake then WakePosition(t.n, p) else AfterRead(log, t.n, p, access, size)
  }

  /** The entries handed out by a run of reads and wake-ups. */
  ghost function HandedOut(log: seq<Sample>, turns: seq<Turn>, p: nat, access: Access, size: nat): seq<nat>
    requires TurnsAt(turns, p, log) && 1 <= size
  {
    if turns == [] then []
    else
      var q := AfterTurn(log, turns[0], p, access, size);
      TurnsFromEarlier(turns[1..], turns[0].n, q, log);
      Handed(log, turns[0], p, access, size) + HandedOut(log, turns[1..], q, access, size)
  }

  /** The reader has moved past what it was handed. */
  ghost predicate MovedPast(log: seq<Sample>, t: Turn, p: nat, access: Access, size: nat)
    requires p <= t.n <= |log| && 1 <= size
  {
    forall i :: i in Handed(log, t, p, access, size) ==> i < AfterTurn(log, t, p, access, size)
  }

  /** A waiter that takes something is at most `size` entries behind. */
  ghost predicate Prompt(log: seq<Sample>, t: Turn, p: nat, access: Access, size: nat)
    requires p <= t.n <= |log| && 1 <= size
  {
    t.wake && Handed(log, t, p, access, size) != [] ==> t.n - EffectivePosition(t.n, p) <= size
  }

  lemma TurnHands(log: seq<Sample>, t: Turn, p: nat, access: Access, size: nat)
    requires p <= t.n <= |log| && 1 <= size
    ensures var r := Handed(log, t, p, access, size);
            |r| <= 1 && (r != [] ==> p <= r[0] < t.n && Permitted(log, r[0], access))
    ensures MovedPast(log, t, p, access, size) <==> Prompt(log, t, p, access, size)
  {
    if t.wake {
      var q := EffectivePosition(t.n, p);
      if q < t.n {
        ResidentSharesSlot(t.n, q, size);
        var r := Handed(log, t, p, access, size);
        assert r != [] ==> r[0] in r;
      }
    } else {
      ReceivedByOneRead(log, t.n, p, access, size);
    }
  }

  ghost predicate AllPrompt(log: seq<Sample>, turns: seq<Turn>, p: nat, access: Access, size: nat)
    requires TurnsAt(turns, p, log) && 1 <= size
  {
    turns == [] ||
    (&& Prompt(log, turns[0], p, access, size)
     && (var q := AfterTurn(log, turns[0], p, access, size);
         TurnsFromEarlier(turns[1..], turns[0].n, q, log);
         AllPrompt(log, turns[1..], q, access, size)))
  }

  /** With prompt waiters, reads and wake-ups together hand out permitted entries in log order, none twice. */
  lemma {:induction false} PromptRunsInOrder(log: seq<Sample>, turns: seq<Turn>, p: nat, access: Access, size: nat)
    requires TurnsAt(turns, p, log) && 1 <= size && AllPrompt(log, turns, p, access, size)
    ensures InOrder(log, HandedOut(log, turns, p, access, size), p, access)
  {
    if turns != [] {
      var q := AfterTurn(log, turns[0], p, access, size);
      hide Handed, AfterTurn, Permitted, Prompt, InOrder;
      TurnsFromEarlier(turns[1..], turns[0].n, q, log);
      PromptRunsInOrder(log, turns[1..], q, access, size);
      TurnHands(log, turns[0], p, access, size);
      var r := Handed(log, turns[0], p, access, size);
      assert r != [] ==> r[0] in r;
      InOrderJoins(log, r, HandedOut(log, turns[1..], q, access, size), p, q, access);
    }
  }

  /** A waiter that takes an entry, and reads again at once, gets only later ones if and only if it was prompt. */
  lemma WakeThenReadInOrderIff(log: seq<Sample>, n: nat, p: nat, access: Access, size: nat)
    requires p <= n <= |log| && 1 <= size && Handed(log, Turn(n, true), p, access, size) != []
    ensures var j := Handed(log, Turn(n, true), p, access, size)[0];
            (forall i :: i in Received(log, n, WakePosition(n, p), access, size) ==> i > j)
            <==> n - EffectivePosition(n, p) <= size
  {
    var (q, r) := (EffectivePosition(n, p), WakePosition(n, p));
    ResidentSharesSlot(n, q, size);
    var j := Resident(n, q, size);
    var i := ReadIndex(log[..n], r, access, size);
    if n - q > size {
      assert Permitted(log[..n], j, access);
      assert Start(n, r, size) <= j;
      assert i <= j;
      assert i in Received(log, n, r, access, size);
    }
  }

  /** Whatever the lags, entries that are handed out are permitted and not before the reader's position. */
  lemma {:induction false} HandedOutFrom(log: seq<Sample>, turns: seq<Turn>, p: nat, access: Access, size: nat, k: nat)
    requires TurnsAt(turns, p, log) && 1 <= size && k < |HandedOut(log, turns, p, access, size)|
    ensures var d := HandedOut(log, turns, p, access, size)[k];
            p <= d < |log| && Permitted(log, d, access)
  {
    hide Handed, AfterTurn, Permitted;
    var q := AfterTurn(log, turns[0], p, access, size);
    TurnsFromEarlier(turns[1..], turns[0].n, q, log);
    TurnHands(log, turns[0], p, access, size);
    var r := Handed(log, turns[0], p, access, size);
    if k >= |r| {
      HandedOutFrom(log, turns[1..], q, access, size, k - |r|);
    }
  }

  lemma RestInOrder(log: seq<Sample>, r: seq<nat>, rest: seq<nat>, p: nat, q: nat, access: Access)
    requires InOrder(log, r + rest, p, access) && forall k :: 0 <= k < |rest| ==> q <= rest[k]
    ensures InOrder(log, rest, q, access)
  {
    hide Permitted;
    assert forall k :: 0 <= k < |rest| ==> (r + rest)[|r| + k] == rest[k];
  }

  /** The first `k` turns of a run, and at once a read. */
  function ThenRead(turns: seq<Turn>, k: nat): seq<Turn>
    requires 1 <= k <= |turns|
  {
    turns[..k] + [Turn(turns[k - 1].n, false)]
  }

  lemma {:induction false} ThenReadAt(log: seq<Sample>, turns: seq<Turn>, p: nat, k: nat)
    requires TurnsAt(turns, p, log) && 1 <= k <= |turns|
    ensures TurnsAt(ThenRead(turns, k), p, log)
    decreases k
  {
    var all := ThenRead(turns, k);
    if k == 1 {
      assert all[1..] == [Turn(turns[0].n, false)] && all[1..][1..] == [];
    } else {
      assert all[1..] == ThenRead(turns[1..], k - 1);
      ThenReadAt(log, turns[1..], turns[0].n, k - 1);
    }
  }

  /** However early the run is interrupted by a read, entries are handed out in log order, none twice. */
  ghost predicate AlwaysInOrder(log: seq<Sample>, turns: seq<Turn>, p: nat, access: Access, size: nat)
    requires TurnsAt(turns, p, log) && 1 <= size
  {
    forall k :: 1 <= k <= |turns| ==> InOrderUpTo(log, turns, p, access, size, k)
  }

  ghost predicate InOrderUpTo(log: seq<Sample>, turns: seq<Turn>, p: nat, access: Access, size: nat, k: nat)
    requires TurnsAt(turns, p, log) && 1 <= size && 1 <= k <= |turns|
  {
    ThenReadAt(log, turns, p, k);
    InOrder(log, HandedOut(log, ThenRead(turns, k), p, access, size), p, access)
  }

  /** The rest of a run, seen from behind its first turn. */
  lemma UpToRest(log: seq<Sample>, turns: seq<Turn>, p: nat, access: Access, size: nat, k: nat)
    requires TurnsAt(turns, p, log) && 1 <= size && 2 <= k <= |turns|
    ensures var q := AfterTurn(log, turns[0], p, access, size);
            && TurnsAt(turns[1..], q, log)
            && (InOrderUpTo(log, turns, p, access, size, k) ==> InOrderUpTo(log, turns[1..], q, access, size, k - 1))
  {
    hide Handed, AfterTurn, InOrder;
    var q := AfterTurn(log, turns[0], p, access, size);
    TurnsFromEarlier(turns[1..], turns[0].n, q, log);
    ThenReadAt(log, turns, p, k);
    ThenReadAt(log, turns[1..], q, k - 1);
    var (all, tail) := (ThenRead(turns, k), ThenRead(turns[1..], k - 1));
    assert all[0] == turns[0] && all[1..] == tail;
    if InOrderUpTo(log, turns, p, access, size, k) {
      forall i | 0 <= i < |HandedOut(log, tail, q, access, size)|
        ensures q <= HandedOut(log, tail, q, access, size)[i]
      {
        HandedOutFrom(log, tail, q, access, size, i);
      }
      RestInOrder(log, Handed(log, turns[0], p, access, size), HandedOut(log, tail, q, access, size), p, q, access);
    }
  }

  /** A first turn that is not prompt, and a read at once, are not in order. */
  lemma LateIsNotInOrder(log: seq<Sample>, turns: seq<Turn>, p: nat, access: Access, size: nat)
    requires TurnsAt(turns, p, log) && 1 <= size && turns != [] && !Prompt(log, turns[0], p, access, size)
    ensures !InOrderUpTo(log, turns, p, access, size, 1)
  {
    var n := turns[0].n;
    ThenReadAt(log, turns, p, 1);
    var (all, read) := (ThenRead(turns, 1), Turn(n, false));
    assert all[1..] == [read] && [read][1..] == [];
    WakeThenReadInOrderIff(log, n, p, access, size);
    hide Received, WakeEntry, WakePosition, EffectivePosition, Permitted;
    var (j, q) := (Handed(log, turns[0], p, access, size)[0], WakePosition(n, p));
    var i :| i in Received(log, n, q, access, size) && i <= j;
    ReceivedByOneRead(log, n, q, access, size);
    assert Received(log, n, q, access, size) == [i];
    assert HandedOut(log, [read], q, access, size) == [i];
    assert HandedOut(log, all, p, access, size) == [j] + [i];
    assert ([j] + [i])[0] == j && ([j] + [i])[1] == i;
  }

  lemma {:induction false} PromptPrefix(log: seq<Sample>, turns: seq<Turn>, p: nat, access: Access, size: nat, k: nat)
    requires TurnsAt(turns, p, log) && 1 <= size && AllPrompt(log, turns, p, access, size) && 1 <= k <= |turns|
    ensures TurnsAt(ThenRead(turns, k), p, log) && AllPrompt(log, ThenRead(turns, k), p, access, size)
    decreases k
  {
    hide Handed, AfterTurn;
    var q := AfterTurn(log, turns[0], p, access, size);
    TurnsFromEarlier(turns[1..], turns[0].n, q, log);
    ThenReadAt(log, turns, p, k);
    var all := ThenRead(turns, k);
    TurnsFromEarlier(all[1..], turns[0].n, q, log);
    if k == 1 {
      var read := Turn(turns[0].n, false);
      assert all[1..] == [read] && [read][1..] == [];
      assert AllPrompt(log, [read], q, access, size);
    } else {
      assert all[1..] == ThenRead(turns[1..], k - 1);
      PromptPrefix(log, turns[1..], q, access, size, k - 1);
    }
  }

  /** Over whole runs: every first part of a run, followed at once by a read, hands out entries in log order, none
      twice, if and only if all waiters are prompt. */
  lemma {:induction false} AlwaysInOrderIffPrompt(
      log: seq<Sample>, turns: seq<Turn>, p: nat, access: Access, size: nat)
    requires TurnsAt(turns, p, log) && 1 <= size
    ensures AlwaysInOrder(log, turns, p, access, size) <==> AllPrompt(log, turns, p, access, size)
    decreases |turns|
  {
    hide Handed, AfterTurn, InOrder, Prompt, InOrderUpTo;
    if AllPrompt(log, turns, p, access, size) {
      forall k | 1 <= k <= |turns|
        ensures InOrderUpTo(log, turns, p, access, size, k)
      {
        PromptUpTo(log, turns, p, access, size, k);
      }
    } else if AlwaysInOrder(log, turns, p, access, size) {
      var q := AfterTurn(log, turns[0], p, access, size);
      TurnsFromEarlier(turns[1..], turns[0].n, q, log);
      assert InOrderUpTo(log, turns, p, access, size, 1);
      if Prompt(log, turns[0], p, access, size) {
        forall k | 1 <= k <= |turns[1..]|
          ensures InOrderUpTo(log, turns[1..], q, access, size, k)
        {
          UpToRest(log, turns, p, access, size, k + 1);
        }
        AlwaysInOrderIffPrompt(log, turns[1..], q, access, size);
      } else {
        LateIsNotInOrder(log, turns, p, access, size);
      }
    }
  }

  lemma PromptUpTo(log: seq<Sample>, turns: seq<Turn>, p: nat, access: Access, size: nat, k: nat)
    requires TurnsAt(turns, p, log) && 1 <= size && AllPrompt(log, turns, p, access, size) && 1 <= k <= |turns|
    ensures InOrderUpTo(log, turns, p, access, size, k)
  {
    hide InOrder, AllPrompt, HandedOut;
    PromptPrefix(log, turns, p, access, size, k);
    PromptRunsInOrder(log, ThenRead(turns, k), p, access, size);
  }

  /** Seventeen writes after a reader started to wait, it is handed the last entry and then the second one. */
  lemma WaiterGoesBack(log: seq<Sample>)
    requires |log| == 17
    ensures TurnsAt([Turn(17, true), Turn(17, false)], 0, log)
    ensures HandedOut(log, [Turn(17, true), Turn(17, false)], 0, CompleteAccess, HISTORY_SIZE) == [16, 1]
  {
    var (wake, read) := (Turn(17, true), Turn(17, false));
    assert [wake, read][1..] == [read] && [read][1..] == [];
    assert WakeEntry(17, 0, HISTORY_SIZE) == 16 && WakePosition(17, 0) == 1;
    assert log[..17] == log;
    assert ReadIndex(log, 1, CompleteAccess, HISTORY_SIZE) == 1;
    assert HandedOut(log, [read], 1, CompleteAccess, HISTORY_SIZE) == [1];
  }
}
