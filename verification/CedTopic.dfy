/** The history of a topic in the centralized middleware (src/cpp/middleware/ced/CedEntities.cpp).  A topic keeps the
    last `size` samples in a ring that is indexed by a 16-bit serial number.  The ghost field `log` records every
    accepted write, and a reader's ghost `position` counts the log entries it has passed. `CedGlobalTopic.Write` and
    `CedGlobalTopic.Read` are proved against the log; the lemmas then speak about whole runs of reads. The source
    fixes `size` to 16 (include/uxr/agent/middleware/ced/CedEntities.hpp); the proofs need only that it divides 65536
    and is below 32768. */
module CedTopics {

  import opened Arithmetic
  import opened SeqNums
  import opened Words

  const HISTORY_SIZE := 16

  datatype TopicSource = InternalSource | ExternalSource

  /** `WriteAccess` and `ReadAccess` have the same four values. */
  datatype Access = NoAccess | InternalAccess | ExternalAccess | CompleteAccess

  datatype Sample = Sample(data: seq<byte>, src: TopicSource, writer: uint32)

  /** `check_write_access` and `check_read_access`. */
  predicate Permits(access: Access, src: TopicSource) {
    || access.CompleteAccess?
    || (access.InternalAccess? && src.InternalSource?)
    || (access.ExternalAccess? && src.ExternalSource?)
  }

  ghost predicate IsHistorySize(size: nat) {
    1 <= size <= ADD_RANGE && MAX % size == 0
  }

  // ---------- slots of the ring ----------

  /** Reducing a counter to sixteen bits first does not change its slot. */
  lemma SlotOfImage(n: int, size: nat)
    requires IsHistorySize(size)
    ensures Image(n) % size == n % size
  {
    var m := MAX / size;
    assert MAX == m * size;
    assert n == n / MAX * MAX + Image(n);
    assert n / MAX * MAX == n / MAX * m * size;
    ModMultiple(n / MAX * m, size, Image(n));
  }

  /** Entries fewer than `size` apart never share a slot. */
  lemma SlotsDistinct(i: int, j: int, size: nat)
    requires 1 <= size && i <= j < i + size && i % size == j % size
    ensures i == j
  {
    var k, r := i / size, i % size;
    assert i == k * size + r;
    UniqueRemainder(j - i, size, 0, j - i);
    ModMultiple(k, size, r + (j - i));
    if r + (j - i) < size {
      UniqueRemainder(r + (j - i), size, 0, r + (j - i));
    } else {
      UniqueRemainder(r + (j - i), size, 1, r + (j - i) - size);
    }
  }

  // ---------- the reader's position ----------

  /** The two-clause test that moves a reader which fell behind to the oldest sample still in the ring. */
  function Clamp(lastRead: uint16, lastWrite: uint16, size: nat): uint16 {
    if LessEq(lastRead, Sub(lastWrite, size)) || Greater(lastRead, lastWrite) then Sub(lastWrite, size) else lastRead
  }

  lemma OldestDistances(lastRead: uint16, lastWrite: uint16, size: nat)
    requires 1 <= size <= ADD_RANGE && lastRead != lastWrite
    ensures var (d, oldest) := (Distance(lastRead, lastWrite), Sub(lastWrite, size));
            && Distance(oldest, lastWrite) == size
            && Distance(oldest, lastRead) == (size - d) % MAX
            && Distance(lastWrite, lastRead) == MAX - d
  {
    SubIsCircular(lastWrite, size);
    DistanceOfImages(lastWrite - size, lastWrite);
    DistanceOfImages(lastWrite - size, lastRead);
    DistanceBack(lastRead, lastWrite);
    ImageOfNumber(lastWrite);
    ImageOfNumber(lastRead);
    hide Distance, Sub, Image;
    var d := Distance(lastRead, lastWrite);
    var turn := if lastRead <= lastWrite then 0 else 1;
    ModShift(size - d, turn);
    assert lastRead - (lastWrite - size) == size - d + turn * MAX;
  }

  lemma ImageOfNumber(n: uint16)
    ensures Image(n) == n
  {
  }

  lemma DistanceBack(a: uint16, b: uint16)
    ensures Distance(a, b) == if a <= b then b - a else b - a + MAX
    ensures a != b ==> Distance(b, a) == MAX - Distance(a, b)
  {
  }

  /** The two clauses together say that the reader is at least `size` behind. */
  lemma ClampDecides(d: int, size: nat)
    requires 1 <= d < MAX && 1 <= size <= ADD_RANGE
    ensures !(1 <= (size - d) % MAX <= ADD_RANGE) || 1 <= MAX - d <= ADD_RANGE <==> d >= size
  {
    assert (size - d) % MAX == if d <= size then size - d else size - d + MAX;
  }

  /** For every distance d in 1..65535 the test leaves the reader at distance min(d, size). */
  lemma ClampExact(lastRead: uint16, lastWrite: uint16, size: nat)
    requires 1 <= size <= ADD_RANGE && lastRead != lastWrite
    ensures Distance(Clamp(lastRead, lastWrite, size), lastWrite) == Min(Distance(lastRead, lastWrite), size)
  {
    OldestDistances(lastRead, lastWrite, size);
    LessIsShortDistance(Sub(lastWrite, size), lastRead);
    LessIsShortDistance(lastWrite, lastRead);
    DistanceBack(lastRead, lastWrite);
    hide Distance, Less, Sub;
    ClampDecides(Distance(lastRead, lastWrite), size);
  }

  /** Where a reader that has passed `p` of `n` entries finds itself: sixteen bits only show the lag modulo 65536. */
  function EffectivePosition(n: nat, p: nat): (q: nat)
    requires p <= n
    ensures p <= q <= n
    ensures n - p < MAX ==> q == p
  {
    n - (n - p) % MAX
  }

  function Start(n: nat, p: nat, size: nat): nat
    requires p <= n
  {
    Max(EffectivePosition(n, p), n - size)
  }

  predicate Permitted(log: seq<Sample>, i: nat, access: Access)
    requires i < |log|
  {
    Permits(access, log[i].src)
  }

  /** The first permitted entry at or after `from`, or the end of the log. */
  function FirstPermitted(log: seq<Sample>, from: nat, access: Access): (i: nat)
    requires from <= |log|
    ensures from <= i <= |log|
    ensures forall k :: from <= k < i ==> !Permitted(log, k, access)
    ensures i < |log| ==> Permitted(log, i, access)
    decreases |log| - from
  {
    if from == |log| || Permitted(log, from, access) then from else FirstPermitted(log, from + 1, access)
  }

  lemma {:induction false} FirstPermittedUnique(log: seq<Sample>, from: nat, access: Access, i: nat)
    requires from <= i <= |log|
    requires forall k :: from <= k < i ==> !Permitted(log, k, access)
    requires i < |log| ==> Permitted(log, i, access)
    ensures FirstPermitted(log, from, access) == i
    decreases i - from
  {
    if from < i {
      FirstPermittedUnique(log, from + 1, access, i);
    }
  }

  /** The entry a non-waiting read returns (the length of the log when there is none). */
  function ReadIndex(log: seq<Sample>, p: nat, access: Access, size: nat): (i: nat)
    requires p <= |log|
    ensures p <= i <= |log|
  {
    FirstPermitted(log, Start(|log|, p, size), access)
  }

  function NextPosition(log: seq<Sample>, p: nat, access: Access, size: nat): (q: nat)
    requires p <= |log|
    ensures p <= q <= |log|
  {
    Min(ReadIndex(log, p, access, size) + 1, |log|)
  }

  /** The entry that sits in the slot of entry `p` when `n` entries have been written. */
  function Resident(n: nat, p: nat, size: nat): int
    requires p < n && 1 <= size
  {
    n - 1 - (n - 1 - p) % size
  }

  lemma ResidentSharesSlot(n: nat, p: nat, size: nat)
    requires p < n && 1 <= size
    ensures var j := Resident(n, p, size); p <= j && n - size <= j < n && j % size == p % size
    ensures Resident(n, p, size) == p <==> n - p <= size
  {
    var k := (n - 1 - p) / size;
    var j := Resident(n, p, size);
    assert n - 1 - p == k * size + (n - 1 - p) % size;
    assert j == k * size + p;
    MulBounds(k, size);
    ModMultiple(k, size, p);
    if n - p <= size {
      UniqueRemainder(n - 1 - p, size, 0, n - 1 - p);
    }
  }

  // ---------- the ring ----------

  class CedGlobalTopic {
    const size: nat
    var lastWrite: uint16
    var history: array<seq<byte>>
    var srcs: array<TopicSource>
    ghost var log: seq<Sample>

    ghost predicate Valid()
      reads this, history, srcs
    {
      && IsHistorySize(size)
      && history.Length == srcs.Length == size
      && lastWrite == Image(|log| - 1)
      && forall n :: 0 <= n < |log| && |log| - size <= n ==>
           history[n % size] == log[n].data && srcs[n % size] == log[n].src
    }

    constructor (historySize: nat)
      requires IsHistorySize(historySize)
      ensures Valid() && size == historySize && log == [] && lastWrite == 0xFFFF
      ensures fresh(history) && fresh(srcs)
    {
      size := historySize;
      lastWrite := 0xFFFF;
      history := new seq<byte>[historySize];
      srcs := new TopicSource[historySize];
      log := [];
    }

    /** A write appends to the log if and only if the access class of its writer allows it. */
    method Write(data: seq<byte>, access: Access, src: TopicSource, ghost writer: uint32) returns (rv: bool)
      requires Valid()
      modifies this, history, srcs
      ensures Valid() && history == old(history) && srcs == old(srcs)
      ensures rv == Permits(access, src)
      ensures log == if rv then old(log) + [Sample(data, src, writer)] else old(log)
    {
      rv := false;
      if Permits(access, src) {
        ghost var n := |log|;
        SlotOfImage(n, size);
        ArithmeticCommutes(n - 1, 1);
        var index := (lastWrite + 1) % MAX % size;
        forall k | 0 <= k < n && n + 1 - size <= k
          ensures k % size != index
        {
          if k % size == index {
            SlotsDistinct(k, n, size);
          }
        }
        history[index] := data;
        srcs[index] := src;
        lastWrite := Next(lastWrite);
        log := log + [Sample(data, src, writer)];
        rv := true;
      }
    }

    /** `get_data`: advance by one and take the slot there if the reader may have it. */
    method GetData(lastRead: uint16, access: Access, ghost p: nat) returns (rv: bool, data: seq<byte>, next: uint16)
      requires Valid() && p < |log| && lastRead == Image(p - 1)
      ensures next == Image(p)
      ensures var j := Resident(|log|, p, size);
              && 0 <= j < |log|
              && rv == Permitted(log, j, access)
              && (rv ==> data == log[j].data)
    {
      ArithmeticCommutes(p - 1, 1);
      SlotOfImage(p, size);
      ResidentSharesSlot(|log|, p, size);
      next := Next(lastRead);
      var index := next % size;
      rv := Permits(access, srcs[index]);
      data := if rv then history[index] else [];
    }

    /** The retry loop of `read`: it stops at the first sample the reader may have, or at the last write. */
    method Scan(lastRead: uint16, access: Access, ghost start: nat)
      returns (rv: bool, data: seq<byte>, next: uint16)
      requires Valid() && start < |log| && |log| - size <= start && lastRead == Image(start - 1)
      ensures var i := FirstPermitted(log, start, access);
              && rv == (i < |log|)
              && (rv ==> data == log[i].data)
              && next == Image(if rv then i else |log| - 1)
    {
      ghost var n := |log|;
      WindowOnly(n, start, size);
      rv, data, next := GetData(lastRead, access, start);
      ghost var q := start;
      LessAbstractsCounters(q, n - 1);
      while !rv && next != lastWrite
        invariant start <= q < n && next == Image(q)
        invariant next != lastWrite <==> q != n - 1
        invariant forall k :: start <= k < q ==> !Permitted(log, k, access)
        invariant rv == Permitted(log, q, access)
        invariant rv ==> data == log[q].data
        decreases n - q
      {
        q := q + 1;
        WindowOnly(n, q, size);
        LessAbstractsCounters(q, n - 1);
        rv, data, next := GetData(next, access, q);
      }
      FirstPermittedUnique(log, start, access, if rv then q else n);
    }

    /** The part of `read` that does not wait, for a reader that has passed `p` entries. */
    method Read(lastRead: uint16, access: Access, ghost p: nat)
      returns (rv: bool, data: seq<byte>, next: uint16)
      requires Valid() && p <= |log| && lastRead == Image(p - 1)
      ensures var i := ReadIndex(log, p, access, size);
              && rv == (i < |log|)
              && (rv ==> data == log[i].data)
              && next == Image(NextPosition(log, p, access, size) - 1)
    {
      hide Clamp, FirstPermitted, EffectivePosition;
      ClampReachesStart(|log|, p, size);
      if lastRead != lastWrite {
        next := Clamp(lastRead, lastWrite, size);
        rv, data, next := Scan(next, access, Start(|log|, p, size));
      } else {
        rv, data, next := false, [], lastRead;
      }
    }

    /** One evaluation of the condition of a waiting reader, which is not clamped first: it reads the slot of its own
        next entry if and only if at most `size` writes have happened since its position. */
    method WaitCheck(lastRead: uint16, access: Access, ghost p: nat)
      returns (rv: bool, data: seq<byte>, next: uint16)
      requires Valid() && p <= |log| && lastRead == Image(p - 1)
      ensures var q := EffectivePosition(|log|, p);
              if q == |log| then !rv && next == lastRead
              else
                var j := Resident(|log|, q, size);
                && 0 <= j < |log|
                && next == Image(q)
                && rv == Permitted(log, j, access)
                && (rv ==> data == log[j].data)
                && (j == q <==> |log| - q <= size)
    {
      ghost var q: int := EffectivePosition(|log|, p);
      WhereAReaderIs(|log|, p);
      hide EffectivePosition, Image, Permitted, Resident;
      if lastRead != lastWrite {
        ResidentSharesSlot(|log|, q, size);
        rv, data, next := GetData(lastRead, access, q);
      } else {
        rv, data, next := false, [], lastRead;
      }
    }
  }

  lemma ImageFromDistance(s: uint16, n: int, m: int)
    requires Distance(s, Image(n)) == n - m
    ensures s == Image(m)
  {
    DistanceOfImages(m, n);
    assert Distance(s, Image(n)) == Distance(Image(m), Image(n));
    assert (Image(n) - s) % MAX == (Image(n) - Image(m)) % MAX;
  }

  /** The number of a reader is that of its effective position, which is the end exactly when it is the last write. */
  lemma WhereAReaderIs(n: nat, p: nat)
    requires p <= n
    ensures Image(p - 1) == Image(EffectivePosition(n, p) - 1)
    ensures Image(p - 1) == Image(n - 1) <==> EffectivePosition(n, p) == n
  {
    DistanceOfImages(p - 1, n - 1);
    ImageFromDistance(Image(p - 1), n - 1, EffectivePosition(n, p) - 1);
  }

  /** A lagging reader is moved to its start position; a reader at the last write has nothing to read. */
  lemma ClampReachesStart(n: nat, p: nat, size: nat)
    requires p <= n && 1 <= size <= ADD_RANGE
    ensures var (lastRead, lastWrite, start) := (Image(p - 1), Image(n - 1), Start(n, p, size));
            if lastRead != lastWrite
            then start < n && n - size <= start && Clamp(lastRead, lastWrite, size) == Image(start - 1)
            else start == n
  {
    hide Clamp, Image, Distance;
    DistanceOfImages(p - 1, n - 1);
    WhereAReaderIs(n, p);
    if Image(p - 1) != Image(n - 1) {
      ClampExact(Image(p - 1), Image(n - 1), size);
      ImageFromDistance(Clamp(Image(p - 1), Image(n - 1), size), n - 1, Start(n, p, size) - 1);
    }
  }

  lemma WindowOnly(n: nat, q: nat, size: nat)
    requires 1 <= size && q < n && n - size <= q
    ensures Resident(n, q, size) == q
  {
    ResidentSharesSlot(n, q, size);
  }

  /** The slot that `last_write_ - j` selects holds the (n - j)-th accepted write, across any number of 16-bit wraps. */
  lemma RingRefinesLog(t: CedGlobalTopic, j: nat)
    requires t.Valid() && j < t.size && j < |t.log|
    ensures var index := Sub(t.lastWrite, j) % t.size;
            t.history[index] == t.log[|t.log| - 1 - j].data && t.srcs[index] == t.log[|t.log| - 1 - j].src
  {
    ArithmeticCommutes(|t.log| - 1, j);
    SlotOfImage(|t.log| - 1 - j, t.size);
  }
}
