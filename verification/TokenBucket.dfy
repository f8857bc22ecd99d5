/**
 * The rate limiter (include/uxr/agent/utils/TokenBucket.hpp).  Time points are nanoseconds; `size_t` and `uint64_t`
 * have 64 bits and wrap.
 */
module TokenBuckets {

  import opened Arithmetic

  const WORD := 0x1_0000_0000_0000_0000
  const NS_PER_MS := 1_000_000

  /** More milliseconds than any time point or difference of 64-bit nanoseconds holds. */
  const LONG := 0x1000_0000_0000

  function U64(n: int): (r: nat)
    ensures r < WORD
    ensures 0 <= n ==> r <= n
    ensures 0 <= n < WORD ==> r == n
  {
    n % WORD
  }

  /** The signed value with these 64 bits. */
  function I64(n: nat): int
    requires n < WORD
  {
    if n < WORD / 2 then n else n - WORD
  }

  /** `duration_cast<milliseconds>`: towards zero. */
  function Millis(ns: int): int {
    if ns >= 0 then ns / NS_PER_MS else -(-ns / NS_PER_MS)
  }

  datatype Bucket = Bucket(rate: nat, capacity: nat, tokens: nat, timestamp: int)
  {
    predicate Valid() {
      0 < rate && tokens <= capacity < WORD
    }
  }

  /** The tokens the code computes after a number of milliseconds. */
  function Filled(rate: nat, capacity: nat, tokens: nat, ms: int): (n: nat)
    ensures n <= capacity
  {
    Min(capacity, U64(tokens + U64(rate * U64(ms)) / 1000))
  }

  function Level(b: Bucket, time: int): nat {
    Filled(b.rate, b.capacity, b.tokens, Millis(time - b.timestamp))
  }

  /** The wait, in milliseconds: the time until enough tokens are there, as the code computes it, or the timeout. */
  function Wait(rate: nat, tokens: nat, required: nat, timeout: int): int
    requires 0 < rate
  {
    Min(I64(U64(1000 * (tokens - required)) / rate), timeout)
  }

  datatype Call = Call(required: nat, now: int, timeout: int)

  /** The time point a call is ready to wait for. */
  function Deadline(b: Bucket, c: Call): int
    requires b.Valid()
  {
    c.now + Wait(b.rate, b.tokens, c.required, c.timeout) * NS_PER_MS
  }

  datatype Answer = Answer(granted: bool, bucket: Bucket, wake: int)

  function Consumed(b: Bucket, c: Call): Answer
    requires b.Valid()
  {
    if c.required > b.capacity then Answer(false, b, c.now)
    else if Level(b, c.now) >= c.required then
      Answer(true, b.(tokens := Level(b, c.now) - c.required, timestamp := c.now), c.now)
    else
      var last := Deadline(b, c);
      if Level(b, last) >= c.required then
        Answer(true, b.(tokens := Level(b, last) - c.required, timestamp := last), Max(c.now, last))
      else Answer(false, b, Max(c.now, last))
  }

  class TokenBucket {
    const rate: nat
    const capacity: nat
    var tokens: nat
    var timestamp: int

    ghost function View(): Bucket
      reads this
    {
      Bucket(rate, capacity, tokens, timestamp)
    }

    constructor (rate: nat, capacity: nat, now: int)
      requires 0 < rate < WORD && capacity < WORD
      ensures var size := if capacity == 0 then rate else capacity;
              View() == Bucket(rate, size, size, now)
      ensures View().Valid()
    {
      this.rate := rate;
      this.capacity := if capacity == 0 then rate else capacity;
      this.tokens := if capacity == 0 then rate else capacity;
      this.timestamp := now;
    }

    /** `wake` is the time at which the caller goes on, having slept until the deadline if it had to. */
    method ConsumeTokens(required: nat, now: int, timeout: int) returns (rv: bool, wake: int)
      requires View().Valid()
      modifies this
      ensures Answer(rv, View(), wake) == Consumed(old(View()), Call(required, now, timeout))
      ensures View().Valid()
    {
      hide Filled, Wait, Millis;
      rv, wake := false, now;
      if required > capacity {
        return;
      }
      var current := Filled(rate, capacity, tokens, Millis(now - timestamp));
      if current < required {
        var last := now + Wait(rate, tokens, required, timeout) * NS_PER_MS;
        var expected := Filled(rate, capacity, tokens, Millis(last - timestamp));
        if expected >= required {
          tokens := expected - required;
          timestamp := last;
          rv := true;
        }
        wake := Max(now, last);
      } else {
        tokens := current - required;
        timestamp := now;
        rv := true;
      }
    }
  }

  // ---------- the rate bound ----------

  /** The tokens that really accrue in a number of milliseconds. */
  function Accrued(rate: nat, ms: nat): nat {
    rate * ms / 1000
  }

  lemma MulMonotone(k: nat, a: int, b: int)
    requires a <= b
    ensures k * a <= k * b
  {
  }

  lemma MillisSplit(a: int, b: int, c: int)
    requires a <= b <= c
    ensures Millis(b - a) + Millis(c - b) <= Millis(c - a)
  {
  }

  lemma AccrualSplits(rate: nat, first: nat, second: nat, both: nat)
    requires first + second <= both
    ensures Accrued(rate, first) + Accrued(rate, second) <= Accrued(rate, both)
  {
    MulMonotone(rate, first + second, both);
    assert rate * (first + second) == rate * first + rate * second;
  }

  /** Wrapping can only lose tokens. */
  lemma FilledAtMost(rate: nat, capacity: nat, tokens: nat, ms: nat)
    ensures Filled(rate, capacity, tokens, ms) <= tokens + Accrued(rate, ms)
  {
    MulMonotone(rate, U64(ms), ms);
  }

  lemma LevelAtMost(b: Bucket, time: int)
    requires b.timestamp <= time
    ensures Level(b, time) <= b.tokens + Accrued(b.rate, Millis(time - b.timestamp))
  {
    FilledAtMost(b.rate, b.capacity, b.tokens, Millis(time - b.timestamp));
  }

  predicate Waits(b: Bucket, c: Call) {
    Level(b, c.now) < c.required <= b.capacity
  }

  /** No time point of the call lies before the last update. */
  predicate Forward(b: Bucket, c: Call)
    requires b.Valid()
  {
    b.timestamp <= c.now && (Waits(b, c) ==> b.timestamp <= Deadline(b, c))
  }

  /** What was granted since `start`, plus what is left, is at most what was there and has accrued since. */
  ghost predicate Bounded(start: Bucket, b: Bucket, granted: nat) {
    && b.Valid()
    && b.rate == start.rate && b.capacity == start.capacity
    && start.timestamp <= b.timestamp
    && granted + b.tokens <= start.capacity + Accrued(b.rate, Millis(b.timestamp - start.timestamp))
  }

  function Paid(b: Bucket, c: Call): nat
    requires b.Valid()
  {
    if Consumed(b, c).granted then c.required else 0
  }

  lemma RefillKeepsBound(start: Bucket, b: Bucket, granted: nat, required: nat, time: int)
    requires Bounded(start, b, granted) && b.timestamp <= time && required <= Level(b, time)
    ensures Bounded(start, b.(tokens := Level(b, time) - required, timestamp := time), granted + required)
  {
    LevelAtMost(b, time);
    MillisSplit(start.timestamp, b.timestamp, time);
    AccrualSplits(b.rate, Millis(b.timestamp - start.timestamp), Millis(time - b.timestamp),
                  Millis(time - start.timestamp));
  }

  lemma CallKeepsBound(start: Bucket, b: Bucket, granted: nat, c: Call)
    requires Bounded(start, b, granted) && Forward(b, c)
    ensures Bounded(start, Consumed(b, c).bucket, granted + Paid(b, c))
    ensures Consumed(b, c).bucket.timestamp <= Consumed(b, c).wake
  {
    if c.required <= b.capacity && Level(b, c.now) >= c.required {
      RefillKeepsBound(start, b, granted, c.required, c.now);
    } else if c.required <= b.capacity && Level(b, Deadline(b, c)) >= c.required {
      RefillKeepsBound(start, b, granted, c.required, Deadline(b, c));
    }
  }

  /** The limiter after a sequence of calls: the bucket, the tokens granted, and the time the caller goes on. */
  datatype Ledger = Ledger(bucket: Bucket, granted: nat, time: int)

  ghost function Served(start: Bucket, calls: seq<Call>): (l: Ledger)
    requires start.Valid()
    ensures l.bucket.Valid() && l.bucket.rate == start.rate && l.bucket.capacity == start.capacity
  {
    if calls == [] then Ledger(start, 0, start.timestamp)
    else
      var l, c := Served(start, calls[..|calls| - 1]), calls[|calls| - 1];
      Ledger(Consumed(l.bucket, c).bucket, l.granted + Paid(l.bucket, c), Consumed(l.bucket, c).wake)
  }

  /** Each call is made after the previous one returned, with a timeout that is not negative. */
  ghost predicate Timely(start: Bucket, calls: seq<Call>)
    requires start.Valid()
  {
    forall i :: 0 <= i < |calls| ==>
      Served(start, calls[..i]).time <= calls[i].now && 0 <= calls[i].timeout < LONG
  }

  /** What a call that waits adds to the time, in milliseconds: at rate 1 it goes back in time. */
  function ActualWait(b: Bucket, c: Call): int {
    if b.rate == 1 then Min(1000 * (b.tokens - c.required), c.timeout) else c.timeout
  }

  /**
   * The subtraction under the quotient wraps to a huge number.  At rate 1 the quotient is the wrapped number itself,
   * which is negative as a duration; at every other rate it is beyond any timeout, so that the call waits for its
   * whole timeout.
   */
  lemma WaitExactly(b: Bucket, c: Call)
    requires b.Valid() && b.rate <= 0xFFFF && b.capacity <= 0xFFFF
    requires b.tokens < c.required <= b.capacity && c.timeout < LONG
    ensures Deadline(b, c) == c.now + ActualWait(b, c) * NS_PER_MS
  {
    var wrapped := U64(1000 * (b.tokens - c.required));
    assert wrapped == WORD + 1000 * (b.tokens - c.required);
    if b.rate == 1 {
      assert wrapped / 1 == wrapped;
    } else {
      QuotientBetween(wrapped, b.rate);
    }
  }

  lemma QuotientBetween(n: nat, d: nat)
    requires 2 <= d <= 0xFFFF && 0xFFFF * LONG <= n < WORD
    ensures LONG <= n / d < WORD / 2
  {
    var q := n / d;
    QuotientTimes(n, d);
    MulMonotone(LONG - 1, d, 0xFFFF);
    if q < LONG {
      MulMonotone(d, q, LONG - 1);
    } else {
      MulMonotone(q, 2, d);
    }
  }

  lemma QuotientTimes(n: nat, d: nat)
    requires d > 0
    ensures d * (n / d) <= n < d * (n / d) + d
  {
  }

  /** Sixteen-bit capacities do not wrap: tokens are only added. */
  lemma LevelKeepsTokens(b: Bucket, time: int)
    requires b.Valid() && b.capacity <= 0xFFFF
    ensures b.tokens <= Level(b, time)
  {
  }

  /** A call whose timeout, negative or not, ends at or after the last update does not look back. */
  lemma ReachingIsForward(b: Bucket, c: Call)
    requires b.Valid() && 2 <= b.rate <= 0xFFFF && b.capacity <= 0xFFFF
    requires b.timestamp <= c.now && c.timeout < LONG
    requires c.timeout < 0 ==> b.timestamp <= c.now + c.timeout * NS_PER_MS
    ensures Forward(b, c)
  {
    LevelKeepsTokens(b, c.now);
    if Waits(b, c) {
      WaitExactly(b, c);
    }
  }

  /** All calls but the last are timely, and so is the last one. */
  lemma TimelyFront(start: Bucket, calls: seq<Call>)
    requires start.Valid() && calls != [] && Timely(start, calls)
    ensures var (front, c) := (calls[..|calls| - 1], calls[|calls| - 1]);
            Timely(start, front) && Served(start, front).time <= c.now && 0 <= c.timeout < LONG
  {
    hide Served;
    var front := calls[..|calls| - 1];
    forall i | 0 <= i < |front|
      ensures Served(start, front[..i]).time <= front[i].now && 0 <= front[i].timeout < LONG
    {
      assert front[..i] == calls[..i];
    }
  }

  /** Over any sequence of calls, the tokens granted and left never exceed the capacity and what the rate allows. */
  lemma {:induction false} RateBound(start: Bucket, calls: seq<Call>)
    requires start.Valid() && 2 <= start.rate <= 0xFFFF && start.capacity <= 0xFFFF && Timely(start, calls)
    ensures var l := Served(start, calls);
            && Bounded(start, l.bucket, l.granted)
            && l.bucket.timestamp <= l.time
  {
    if calls == [] {
      StartIsBounded(start);
    } else {
      var front, c := calls[..|calls| - 1], calls[|calls| - 1];
      TimelyFront(start, calls);
      hide Bounded, Consumed, Forward, Timely, Paid, Level, Deadline;
      RateBound(start, front);
      ServedOneMore(start, front, c);
      assert front + [c] == calls;
      var l := Served(start, front);
      hide Served;
      ReachingIsForward(l.bucket, c);
      CallKeepsBound(start, l.bucket, l.granted, c);
    }
  }

  lemma StartIsBounded(start: Bucket)
    requires start.Valid()
    ensures Bounded(start, start, 0)
  {
  }

  // ---------- negative timeouts ----------

  /** The tokens that are really there, when nothing wraps. */
  function TrueLevel(b: Bucket, time: int): nat
    requires b.timestamp <= time
  {
    Min(b.capacity, b.tokens + Accrued(b.rate, Millis(time - b.timestamp)))
  }

  lemma FilledIsTrue(rate: nat, capacity: nat, tokens: nat, ms: nat)
    requires rate <= 0xFFFF && tokens <= capacity <= 0xFFFF && ms < 0x1_0000_0000_0000
    ensures Filled(rate, capacity, tokens, ms) == Min(capacity, tokens + Accrued(rate, ms))
  {
    var product := rate * ms;
    assert product <= 0xFFFF * 0xFFFF_FFFF_FFFF by {
      MulMonotone(rate, ms, 0xFFFF_FFFF_FFFF);
      MulMonotone(0xFFFF_FFFF_FFFF, rate, 0xFFFF);
    }
    assert U64(rate * U64(ms)) == product;
  }

  lemma LevelIsTrue(b: Bucket, time: int)
    requires b.Valid() && b.rate <= 0xFFFF && b.capacity <= 0xFFFF
    requires b.timestamp <= time && Millis(time - b.timestamp) < 0x1_0000_0000_0000
    ensures Level(b, time) == TrueLevel(b, time)
  {
    FilledIsTrue(b.rate, b.capacity, b.tokens, Millis(time - b.timestamp));
  }

  lemma ProductBetween(rate: nat, back: nat)
    requires 1 <= rate <= 0xFFFF && 1 <= back < LONG
    ensures 1 <= rate * back <= 0xFFFF * LONG
    ensures rate * (WORD - back) == (rate - 1) * WORD + (WORD - rate * back)
  {
    MulMonotone(rate, back, LONG);
    MulMonotone(LONG, rate, 0xFFFF);
    MulMonotone(rate, 1, back);
  }

  lemma Wraps(k: int, r: nat)
    requires r < WORD
    ensures U64(k * WORD + r) == r
  {
    UniqueRemainder(k * WORD + r, WORD, k, r);
  }

  lemma BackwardFills(rate: nat, capacity: nat, tokens: nat, back: int)
    requires 1 <= rate <= 0xFFFF && tokens <= capacity <= 0xFFFF && 1 <= back < LONG
    ensures Filled(rate, capacity, tokens, -back) == capacity
  {
    Wraps(-1, WORD - back);
    ProductBetween(rate, back);
    Wraps(rate - 1, WORD - rate * back);
  }

  /** At least a millisecond before the last update the product wraps, and the bucket looks full. */
  lemma BackwardLooksFull(b: Bucket, time: int)
    requires b.Valid() && b.rate <= 0xFFFF && b.capacity <= 0xFFFF
    requires -LONG < Millis(time - b.timestamp) < 0
    ensures Level(b, time) == b.capacity
  {
    BackwardFills(b.rate, b.capacity, b.tokens, -Millis(time - b.timestamp));
  }

  lemma TrueLevelGrows(b: Bucket, time: int, later: int)
    requires b.timestamp <= time <= later
    ensures TrueLevel(b, time) <= TrueLevel(b, later)
  {
    MulMonotone(b.rate, Millis(time - b.timestamp), Millis(later - b.timestamp));
  }

  /** The call hands out tokens that are not there, even at the time it returns. */
  ghost predicate Overgrants(b: Bucket, c: Call)
    requires b.Valid() && b.timestamp <= c.now
  {
    Consumed(b, c).granted && TrueLevel(b, Consumed(b, c).wake) < c.required
  }

  /**
   * Too many tokens are granted exactly by a call that has to wait and whose wait reaches a millisecond or more
   * before the last update: by a negative timeout, or at rate 1 by any timeout.
   */
  lemma OvergrantsIffBackward(b: Bucket, c: Call)
    requires b.Valid() && b.rate <= 0xFFFF && b.capacity <= 0xFFFF
    requires 0 <= c.now - b.timestamp < LONG * NS_PER_MS && -LONG < c.timeout < LONG
    ensures Overgrants(b, c) <==> Waits(b, c) && c.now - b.timestamp <= (-ActualWait(b, c) - 1) * NS_PER_MS
  {
    hide Deadline, Filled, Accrued;
    LevelKeepsTokens(b, c.now);
    LevelIsTrue(b, c.now);
    if Waits(b, c) {
      WaitExactly(b, c);
      var last := Deadline(b, c);
      if b.timestamp - NS_PER_MS < last <= b.timestamp {
        LevelIsTrue(b, b.timestamp);
        assert Millis(last - b.timestamp) == Millis(b.timestamp - b.timestamp);
        TrueLevelGrows(b, b.timestamp, c.now);
      } else if b.timestamp < last {
        LevelIsTrue(b, last);
        TrueLevelGrows(b, last, Max(c.now, last));
      } else {
        BackwardLooksFull(b, last);
      }
    }
  }

  /** An empty bucket of rate 2 and a timeout of -1 millisecond at the time of its last update. */
  lemma NegativeTimeoutOvergrants()
    ensures Overgrants(Bucket(2, 2, 0, 0), Call(1, 0, -1))
  {
    OvergrantsIffBackward(Bucket(2, 2, 0, 0), Call(1, 0, -1));
  }

  // ---------- what is granted ----------

  /** The buckets and times of the source: sixteen-bit rates, and durations that 64-bit nanoseconds hold. */
  predicate Ordinary(b: Bucket, c: Call) {
    && b.Valid() && b.rate <= 0xFFFF && b.capacity <= 0xFFFF
    && 0 <= c.now - b.timestamp < LONG * NS_PER_MS && -LONG < c.timeout < LONG
  }

  /** A call for no more tokens than are there is granted at once, and leaves exactly the others. */
  lemma GrantedAtOnce(b: Bucket, c: Call)
    requires Ordinary(b, c) && c.required <= TrueLevel(b, c.now)
    ensures Consumed(b, c) ==
            Answer(true, Bucket(b.rate, b.capacity, TrueLevel(b, c.now) - c.required, c.now), c.now)
  {
    hide Level, Accrued;
    LevelIsTrue(b, c.now);
  }

  /** A call for more tokens than the bucket can hold is refused at once. */
  lemma RefusedAtOnce(b: Bucket, c: Call)
    requires b.Valid() && c.required > b.capacity
    ensures Consumed(b, c) == Answer(false, b, c.now)
  {
  }

  /** A call that has to wait goes on at its deadline.  It is granted exactly if the tokens will be there by then, and
      leaves exactly the others; otherwise it takes nothing. */
  lemma WaitGrantedIff(b: Bucket, c: Call)
    requires Ordinary(b, c) && TrueLevel(b, c.now) < c.required <= b.capacity
    requires b.timestamp <= c.now + ActualWait(b, c) * NS_PER_MS
    ensures var last := c.now + ActualWait(b, c) * NS_PER_MS;
            Consumed(b, c) ==
              if c.required <= TrueLevel(b, last)
              then Answer(true, Bucket(b.rate, b.capacity, TrueLevel(b, last) - c.required, last), Max(c.now, last))
              else Answer(false, b, Max(c.now, last))
  {
    hide Level, Accrued, Deadline;
    LevelIsTrue(b, c.now);
    LevelKeepsTokens(b, c.now);
    WaitExactly(b, c);
    MillisBelow(c.now - b.timestamp, ActualWait(b, c));
    LevelIsTrue(b, c.now + ActualWait(b, c) * NS_PER_MS);
  }

  lemma MillisBelow(elapsed: int, wait: int)
    requires 0 <= elapsed < LONG * NS_PER_MS && wait < LONG && 0 <= elapsed + wait * NS_PER_MS
    ensures Millis(elapsed + wait * NS_PER_MS) < 2 * LONG
  {
  }

  /** The tokens that accrued between the last two updates, if the call was granted. */
  function Gain(b: Bucket, c: Call): nat
    requires b.Valid() && Forward(b, c)
  {
    if Consumed(b, c).granted then Accrued(b.rate, Max(0, Millis(Consumed(b, c).bucket.timestamp - b.timestamp))) else 0
  }

  /** Nothing is cut off by the capacity. */
  ghost predicate Uncut(b: Bucket, c: Call)
    requires b.Valid() && Forward(b, c)
  {
    b.tokens + Gain(b, c) <= b.capacity
  }

  /** A call of a sequence is forward, of ordinary size, and loses nothing to the capacity. */
  ghost predicate GentleCall(b: Bucket, c: Call) {
    b.Valid() && Ordinary(b, c) && Forward(b, c) && Uncut(b, c)
  }

  lemma CallConserves(b: Bucket, c: Call)
    requires 2 <= b.rate && GentleCall(b, c)
    ensures Consumed(b, c).bucket.tokens + Paid(b, c) == b.tokens + Gain(b, c)
  {
    hide Level, Accrued, Deadline;
    LevelKeepsTokens(b, c.now);
    LevelIsTrue(b, c.now);
    if Waits(b, c) {
      WaitExactly(b, c);
      MillisBelow(c.now - b.timestamp, c.timeout);
      LevelIsTrue(b, Deadline(b, c));
    }
  }

  ghost predicate GentleCalls(start: Bucket, calls: seq<Call>)
    requires start.Valid()
  {
    forall i :: 0 <= i < |calls| ==> GentleCall(Served(start, calls[..i]).bucket, calls[i])
  }

  /** What accrued over a sequence of calls. */
  ghost function Gained(start: Bucket, calls: seq<Call>): nat
    requires start.Valid() && GentleCalls(start, calls)
  {
    if calls == [] then 0
    else
      GentleFront(start, calls);
      var (front, c) := (calls[..|calls| - 1], calls[|calls| - 1]);
      Gained(start, front) + Gain(Served(start, front).bucket, c)
  }

  lemma GentleFront(start: Bucket, calls: seq<Call>)
    requires start.Valid() && GentleCalls(start, calls) && calls != []
    ensures var (front, c) := (calls[..|calls| - 1], calls[|calls| - 1]);
            GentleCalls(start, front) && GentleCall(Served(start, front).bucket, c)
  {
    hide Served, GentleCall;
    var front := calls[..|calls| - 1];
    assert forall i :: 0 <= i < |front| ==> front[..i] == calls[..i];
  }

  /** Over any sequence of calls that loses nothing to the capacity: granted and left is what was there and has
      accrued. */
  lemma {:induction false} TokensAreConserved(start: Bucket, calls: seq<Call>)
    requires start.Valid() && 2 <= start.rate && GentleCalls(start, calls)
    ensures var l := Served(start, calls);
            l.granted + l.bucket.tokens == start.tokens + Gained(start, calls)
  {
    hide GentleCall, Consumed, Gain, GentleCalls;
    if calls != [] {
      var (front, c) := (calls[..|calls| - 1], calls[|calls| - 1]);
      GentleFront(start, calls);
      TokensAreConserved(start, front);
      CallConserves(Served(start, front).bucket, c);
    }
  }

  // ---------- rate 1 ----------

  lemma ServedOneMore(start: Bucket, calls: seq<Call>, c: Call)
    requires start.Valid()
    ensures var l := Served(start, calls);
            Served(start, calls + [c]) ==
              Ledger(Consumed(l.bucket, c).bucket, l.granted + Paid(l.bucket, c), Consumed(l.bucket, c).wake)
  {
    hide Consumed, Paid;
    assert (calls + [c])[..|calls|] == calls;
  }

  lemma TimelyOneMore(start: Bucket, calls: seq<Call>, c: Call)
    requires start.Valid() && Timely(start, calls) && Served(start, calls).time <= c.now && 0 <= c.timeout < LONG
    ensures Timely(start, calls + [c])
  {
    hide Served;
    forall i | 0 <= i <= |calls|
      ensures Served(start, (calls + [c])[..i]).time <= (calls + [c])[i].now && 0 <= (calls + [c])[i].timeout < LONG
    {
      assert (calls + [c])[..i] == calls[..i];
      assert calls[..|calls|] == calls;
    }
  }

  /** Calls for one token each, all at the same instant and without a timeout. */
  function AtOnce(n: nat, now: int): seq<Call> {
    if n == 0 then [] else AtOnce(n - 1, now) + [Call(1, now, 0)]
  }

  /** The bucket of rate 1 after `n` calls at one instant: its timestamp jumps a second back and forth. */
  function RateOneBucket(n: nat, now: int): (b: Bucket)
    ensures b.Valid()
  {
    if n == 0 then Bucket(1, 1, 1, now - NS_PER_MS)
    else Bucket(1, 1, 0, if n % 2 == 1 then now else now - 1000 * NS_PER_MS)
  }

  lemma RateOneNext(n: nat, now: int)
    ensures Consumed(RateOneBucket(n, now), Call(1, now, 0)) == Answer(true, RateOneBucket(n + 1, now), now)
  {
    hide Consumed;
    RateOneCall(RateOneBucket(n, now), now);
  }

  lemma RateOneStart(now: int)
    ensures Timely(RateOneBucket(0, now), []) &&
            Served(RateOneBucket(0, now), []) == Ledger(RateOneBucket(0, now), 0, now - NS_PER_MS)
  {
  }

  /** At rate 1 every one of any number of calls at the same instant is granted. */
  lemma {:induction false} RateOneGrantsEverything(n: nat, now: int)
    ensures Timely(RateOneBucket(0, now), AtOnce(n, now))
    ensures var l := Served(RateOneBucket(0, now), AtOnce(n, now));
            l.bucket == RateOneBucket(n, now) && l.granted == n && l.time <= now
  {
    hide Consumed, Served, Timely, RateOneBucket;
    if n == 0 {
      RateOneStart(now);
    } else {
      var (full, front, c) := (RateOneBucket(0, now), AtOnce(n - 1, now), Call(1, now, 0));
      RateOneGrantsEverything(n - 1, now);
      RateOneNext(n - 1, now);
      ServedOneMore(full, front, c);
      TimelyOneMore(full, front, c);
    }
  }

  lemma RateOneCall(b: Bucket, now: int)
    requires || b == Bucket(1, 1, 1, now - NS_PER_MS) || b == Bucket(1, 1, 0, now)
             || b == Bucket(1, 1, 0, now - 1000 * NS_PER_MS)
    ensures Consumed(b, Call(1, now, 0)) ==
            Answer(true, Bucket(1, 1, 0, if b.tokens == 0 && b.timestamp == now then now - 1000 * NS_PER_MS else now),
                   now)
  {
    var c := Call(1, now, 0);
    LevelIsTrue(b, now);
    if b.tokens == 0 && b.timestamp == now {
      WaitExactly(b, c);
      BackwardLooksFull(b, now - 1000 * NS_PER_MS);
    }
  }

  /** From a full bucket, no timely sequence of calls is granted more than the rate allows. */
  ghost predicate KeepsRate(start: Bucket)
    requires start.Valid()
  {
    forall calls :: Timely(start, calls) ==> Bounded(start, Served(start, calls).bucket, Served(start, calls).granted)
  }

  /** Of the rates that a client can ask for, exactly rate 1 is not kept. */
  lemma RateKeptIff(rate: nat, start: int)
    requires 1 <= rate <= 0xFFFF
    ensures KeepsRate(Bucket(rate, rate, rate, start)) <==> rate >= 2
  {
    hide Served, Timely, Bounded;
    var full := Bucket(rate, rate, rate, start);
    if rate >= 2 {
      forall calls | Timely(full, calls)
        ensures Bounded(full, Served(full, calls).bucket, Served(full, calls).granted)
      {
        RateBound(full, calls);
      }
    } else {
      RateOneNotBounded(start + NS_PER_MS);
    }
  }

  lemma RateOneNotBounded(now: int)
    ensures !KeepsRate(RateOneBucket(0, now))
  {
    hide Served, Timely, AtOnce;
    var (full, calls) := (RateOneBucket(0, now), AtOnce(3, now));
    RateOneGrantsEverything(3, now);
    assert !Bounded(full, Served(full, calls).bucket, Served(full, calls).granted);
  }
}
