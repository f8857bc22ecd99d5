/** The thread that samples a data source on behalf of a client (include/uxr/agent/reader/Reader.hpp). */
module Readers {

  import opened Arithmetic
  import opened Options
  import opened Words
  import opened TokenBuckets

  const RW_TIMEOUT := 100
  const MAX_SAMPLES_UNLIMITED := 0xFFFF
  const MAX_ELAPSED_TIME_UNLIMITED := 0
  const MAX_BYTES_PER_SECOND_UNLIMITED := 0
  const SIZE_MAX := WORD - 1

  datatype DeliveryControl =
    DeliveryControl(maxSamples: uint16, maxElapsedTime: uint16, maxBytesPerSecond: uint16)

  function Bytes(samples: seq<seq<byte>>): nat {
    if samples == [] then 0 else Bytes(samples[..|samples| - 1]) + |samples[|samples| - 1]|
  }

  lemma BytesOneMore(samples: seq<seq<byte>>, sample: seq<byte>)
    ensures Bytes(samples + [sample]) == Bytes(samples) + |sample|
  {
    assert (samples + [sample])[..|samples|] == samples;
  }

  /** What the thread finds outside itself: the stop flag, the clock, the source and the stream to the client. */
  class World {
    const stopAfter: nat
    const clockAt: nat -> int
    const readAt: nat -> Option<seq<byte>>
    const writeAt: nat -> bool
    var tests: nat
    var calls: nat
    var time: int
    var got: seq<seq<byte>>
    var pushed: seq<seq<byte>>

    constructor (stopAfter: nat, clockAt: nat -> int, readAt: nat -> Option<seq<byte>>, writeAt: nat -> bool)
      ensures this.stopAfter == stopAfter && this.readAt == readAt && this.writeAt == writeAt
      ensures tests == 0 && got == pushed == []
    {
      this.stopAfter, this.clockAt, this.readAt, this.writeAt := stopAfter, clockAt, readAt, writeAt;
      tests, calls, time, got, pushed := 0, 0, clockAt(0), [], [];
    }

    /** There is always an empty sample to read, and every write is taken. */
    ghost predicate Eager() {
      (forall k :: readAt(k) == Some([])) && (forall k :: writeAt(k))
    }

    /** There is always the same sample to read. */
    ghost predicate Offers(sample: seq<byte>) {
      forall k :: readAt(k) == Some(sample)
    }

    /** The stop flag is set by another thread and never cleared while the thread runs. */
    method Running() returns (r: bool)
      modifies this`tests
      ensures r == (old(tests) < stopAfter) && tests == old(tests) + 1
    {
      r := tests < stopAfter;
      tests := tests + 1;
    }

    /** A steady clock. */
    method Now() returns (t: int)
      modifies this`calls, this`time
      ensures t == time && time >= old(time)
    {
      t := Max(time, clockAt(calls));
      calls, time := calls + 1, t;
    }

    method SleepUntil(t: int)
      modifies this`time
      ensures time == Max(old(time), t)
    {
      time := Max(time, t);
    }

    method Read() returns (data: Option<seq<byte>>)
      modifies this`calls, this`got
      ensures data == readAt(old(calls))
      ensures got == if data.Some? then old(got) + [data.value] else old(got)
    {
      data := readAt(calls);
      calls := calls + 1;
      if data.Some? {
        got := got + [data.value];
      }
    }

    method Write(data: seq<byte>) returns (ok: bool)
      modifies this`calls, this`pushed
      ensures ok == writeAt(old(calls))
      ensures pushed == if ok then old(pushed) + [data] else old(pushed)
    {
      ok := writeAt(calls);
      calls := calls + 1;
      if ok {
        pushed := pushed + [data];
      }
    }
  }

  /** Every byte pushed was granted, and at most the last sample read has not been pushed. */
  ghost predicate PaidFor(pushed: seq<seq<byte>>, got: seq<seq<byte>>, granted: nat, count: uint16, capacity: nat) {
    && pushed <= got && |got| <= |pushed| + 1
    && Bytes(pushed) <= granted
    && (forall d :: d in pushed ==> |d| <= capacity)
    && count == |pushed| % 0x1_0000
  }

  lemma PaidNext(pushed: seq<seq<byte>>, granted: nat, count: uint16, capacity: nat, data: seq<byte>, more: nat)
    requires PaidFor(pushed, pushed, granted, count, capacity) && more >= granted
    ensures PaidFor(pushed, pushed + [data], more, count, capacity)
    ensures |data| <= capacity && more >= granted + |data| ==>
              PaidFor(pushed + [data], pushed + [data], more, (count + 1) % 0x1_0000, capacity)
  {
    BytesOneMore(pushed, data);
    hide Bytes;
    assert forall d :: d in pushed + [data] ==> d in pushed || d == data;
    assert (count + 1) % 0x1_0000 == (|pushed| + 1) % 0x1_0000;
  }

  class ReadTask {
    const control: DeliveryControl
    const world: World
    const bucket: TokenBucket
    const finalTime: Option<int>
    var messageCount: uint16
    ghost const start: Bucket
    ghost var granted: nat
    ghost var forward: bool

    /** The time limit as a deadline; without a limit there is none. */
    constructor (control: DeliveryControl, world: World)
      modifies world
      ensures this.control == control && this.world == world && fresh(bucket)
      ensures world.got == old(world.got) && world.pushed == old(world.pushed)
      ensures Metered() && messageCount == 0 && granted == 0 && forward
      ensures start.rate == (if control.maxBytesPerSecond == 0 then SIZE_MAX else control.maxBytesPerSecond)
      ensures start.capacity == start.rate
      ensures finalTime.None? <==> control.maxElapsedTime == 0
      ensures finalTime.Some? ==>
                old(world.time) <= finalTime.value - control.maxElapsedTime * 1_000_000_000 <= world.time
      ensures old(world.time) <= start.timestamp <= world.time && start.tokens == start.rate
      ensures InTime() && world.tests == old(world.tests)
    {
      var limit := control.maxBytesPerSecond;
      var rate := if limit == MAX_BYTES_PER_SECOND_UNLIMITED then SIZE_MAX else limit;
      var created := world.Now();
      var b := new TokenBucket(rate, 0, created);
      var init := world.Now();
      this.control, this.world, this.bucket := control, world, b;
      this.finalTime := if control.maxElapsedTime == MAX_ELAPSED_TIME_UNLIMITED then None
                        else Some(init + control.maxElapsedTime * 1_000_000_000);
      this.messageCount := 0;
      this.start, this.granted, this.forward := b.View(), 0, true;
    }

    /** The bucket has granted `granted`; as long as no call looked back in time, within the rate. */
    ghost predicate Metered()
      reads this, bucket, world`time
    {
      && bucket.View().Valid()
      && bucket.rate == start.rate && bucket.capacity == start.capacity
      && (forward ==> bucket.timestamp <= world.time && Bounded(start, bucket.View(), granted))
    }

    /** The rates at which no call ever looks back in time. */
    ghost predicate AlwaysForward()
      reads this
    {
      2 <= start.rate <= 0xFFFF && start.capacity <= 0xFFFF ==> forward
    }

    /** At the start of a turn the bucket was last updated before the time limit. */
    ghost predicate InTime()
      reads this, bucket
    {
      finalTime.Some? && forward ==> bucket.timestamp <= finalTime.value
    }

    /** A timeout that is over reaches back, but not before the last update of the bucket. */
    ghost predicate Reaches(timeout: int)
      reads this, bucket, world`time
    {
      timeout <= RW_TIMEOUT && (forward && timeout < 0 ==> bucket.timestamp <= world.time + timeout * NS_PER_MS)
    }

    /** What is left of the time limit, counted from before the read: a negative timeout still ends behind the limit. */
    method Timeout() returns (timeout: int)
      modifies world`calls, world`time
      ensures world.time >= old(world.time)
      ensures timeout == if finalTime.None? then 100 else Min(100, Millis(finalTime.value - world.time))
      ensures old(Metered()) ==> Metered()
      ensures old(InTime()) ==> Reaches(timeout)
    {
      var now := world.Now();
      timeout := if finalTime.Some? then Min(RW_TIMEOUT, Millis(finalTime.value - now)) else RW_TIMEOUT;
    }

    method Consume(required: nat, timeout: int) returns (rv: bool)
      requires Metered() && AlwaysForward() && Reaches(timeout)
      modifies world`calls, world`time, bucket, this`granted, this`forward
      ensures Metered() && AlwaysForward() && (!rv ==> Reaches(timeout))
      ensures granted == old(granted) + if rv then required else 0
      ensures required == 0 ==> rv
      ensures required > bucket.capacity ==> !rv
    {
      hide Filled, Wait, Accrued;
      var now := world.Now();
      ghost var call := Call(required, now, timeout);
      ghost var was := bucket.View();
      if forward && 2 <= start.rate <= 0xFFFF && start.capacity <= 0xFFFF {
        ReachingIsForward(was, call);
      }
      forward := forward && Forward(was, call);
      if forward {
        CallKeepsBound(start, was, granted, call);
      }
      var wake;
      rv, wake := bucket.ConsumeTokens(required, now, timeout);
      world.SleepUntil(wake);
      granted := granted + if rv then required else 0;
    }

    /** The inner loop: write the sample until the stream takes it. */
    method WriteSample(data: seq<byte>) returns (pushed: bool)
      modifies world
      ensures world.time >= old(world.time) && world.got == old(world.got)
      ensures world.pushed == if pushed then old(world.pushed) + [data] else old(world.pushed)
      ensures world.tests > old(world.tests)
      ensures !pushed ==> world.tests > world.stopAfter
      ensures world.Eager() ==> pushed && world.tests == old(world.tests) + 1
    {
      pushed := false;
      while true
        invariant !pushed && world.pushed == old(world.pushed) && world.got == old(world.got)
        invariant world.time >= old(world.time) && world.tests >= old(world.tests)
        invariant world.Eager() ==> world.tests == old(world.tests)
        decreases world.stopAfter - world.tests
      {
        var _ := Timeout();
        pushed := world.Write(data);
        var running := world.Running();
        if !(running && !pushed) {
          break;
        }
      }
    }

    /** Wait for the tokens of a sample, then write it.  Nothing but a stop ends the loop before the sample is
        written, not even the time limit, and a sample that is larger than the bucket is never written. */
    method PushSample(data: seq<byte>, timeout: int) returns (pushed: bool)
      requires Metered() && AlwaysForward() && Reaches(timeout)
      modifies world, bucket, this`granted, this`forward, this`messageCount
      ensures Metered() && AlwaysForward()
      ensures world.got == old(world.got)
      ensures world.pushed == if pushed then old(world.pushed) + [data] else old(world.pushed)
      ensures messageCount == if pushed then (old(messageCount) + 1) % 0x1_0000 else old(messageCount)
      ensures granted >= old(granted) + if pushed then |data| else 0
      ensures world.tests >= old(world.tests) && (!pushed ==> world.tests > world.stopAfter)
      ensures |data| > bucket.capacity ==> !pushed
      ensures world.Eager() && data == [] ==> pushed && world.tests == old(world.tests) + 2
    {
      pushed := false;
      while true
        invariant Metered() && AlwaysForward() && Reaches(timeout) && !pushed
        invariant world.pushed == old(world.pushed) && world.got == old(world.got)
        invariant messageCount == old(messageCount) && granted >= old(granted)
        invariant world.tests >= old(world.tests)
        invariant world.Eager() && data == [] ==> world.tests == old(world.tests)
        decreases world.stopAfter - world.tests
      {
        var consumed := Consume(|data|, timeout);
        if consumed {
          pushed := WriteSample(data);
          if pushed {
            messageCount := (messageCount + 1) % 0x1_0000;
          }
        }
        var running := world.Running();
        if !(running && !pushed) {
          break;
        }
        assert !consumed;
      }
    }

    ghost predicate Paid()
      reads this, world
    {
      PaidFor(world.pushed, world.got, granted, messageCount, bucket.capacity)
    }

    ghost predicate Limited() {
      1 <= control.maxSamples < MAX_SAMPLES_UNLIMITED
    }

    /** One turn of the loop: read, and push what was read. */
    method Sample()
      requires Metered() && AlwaysForward() && InTime() && Paid() && world.pushed == world.got
      modifies world, bucket, this`granted, this`forward, this`messageCount
      ensures Metered() && AlwaysForward() && Paid()
      ensures world.pushed == world.got || world.tests > world.stopAfter
      ensures |world.pushed| <= |old(world.pushed)| + 1 && world.tests >= old(world.tests)
      ensures world.Eager() ==> |world.pushed| == |old(world.pushed)| + 1 && world.tests == old(world.tests) + 2
      ensures forall x :: world.Offers(x) ==> world.got == old(world.got) + [x]
    {
      hide Metered, Reaches, InTime, AlwaysForward, PaidFor;
      var timeout := Timeout();
      ghost var (before, paid, count) := (world.pushed, granted, messageCount);
      var data := world.Read();
      if data.Some? {
        var pushed := PushSample(data.value, timeout);
        PaidNext(before, paid, count, bucket.capacity, data.value, granted);
      }
    }

    lemma StartsPaid()
      requires forward && granted == 0 && messageCount == 0 && world.got == world.pushed == []
      ensures AlwaysForward() && Paid()
    {
    }

    /** The test at the end of a turn. */
    method Over() returns (stop: bool)
      requires Metered()
      modifies world`calls, world`time
      ensures Metered() && (!stop ==> InTime())
      ensures stop <==> || (control.maxSamples != 0xFFFF && messageCount == control.maxSamples)
                        || (finalTime.Some? && world.time > finalTime.value)
    {
      var now := world.Now();
      stop := (control.maxSamples != MAX_SAMPLES_UNLIMITED && messageCount == control.maxSamples)
           || (finalTime.Some? && now > finalTime.value);
    }

    /** `read_task`: only the last sample read can be left behind, and only by a stop, which is also the only way out
        once a sample was read that is larger than the bucket. */
    method Run()
      requires Metered() && InTime() && forward && granted == 0 && messageCount == 0 && world.got == world.pushed == []
      modifies world, bucket, this`granted, this`forward, this`messageCount
      ensures Paid() && Metered() && AlwaysForward()
      ensures || world.tests > world.stopAfter
              || (control.maxSamples != 0xFFFF && messageCount == control.maxSamples)
              || (finalTime.Some? && world.time > finalTime.value)
      ensures world.pushed == world.got || world.tests > world.stopAfter
      ensures (exists d :: d in world.got && |d| > bucket.capacity) ==> world.tests > world.stopAfter
      ensures forall x :: world.Offers(x) ==> forall d :: d in world.got ==> d == x
      ensures forall x :: world.Offers(x) && old(world.tests) < world.stopAfter ==> x in world.got
      ensures Limited() ==> |world.pushed| <= control.maxSamples
      ensures finalTime.None? && world.Eager() ==>
                && world.tests == old(world.tests) + 3 * |world.pushed| + 1
                && (|| world.tests > world.stopAfter
                    || (|world.pushed| > 0 && messageCount == control.maxSamples != MAX_SAMPLES_UNLIMITED))
    {
      hide Metered, InTime, AlwaysForward, Bytes, Reaches;
      StartsPaid();
      var stop := false;
      var running := world.Running();
      while running && !stop
        invariant Metered() && AlwaysForward() && Paid()
        invariant running ==> world.pushed == world.got && world.tests <= world.stopAfter
        invariant forall x :: world.Offers(x) ==> forall d :: d in world.got ==> d == x
        invariant forall x :: world.Offers(x) && old(world.tests) < world.stopAfter && (!running || stop) ==>
                  x in world.got
        invariant !running ==> world.tests > world.stopAfter
        invariant !stop ==> InTime()
        invariant stop ==> || (control.maxSamples != 0xFFFF && messageCount == control.maxSamples)
                           || (finalTime.Some? && world.time > finalTime.value)
        invariant Limited() ==> |world.pushed| <= control.maxSamples
        invariant Limited() && running && !stop ==> |world.pushed| < control.maxSamples
        invariant world.Eager() ==> world.tests == old(world.tests) + 3 * |world.pushed| + 1
        invariant finalTime.None? && world.Eager() && stop ==>
                    |world.pushed| > 0 && messageCount == control.maxSamples != MAX_SAMPLES_UNLIMITED
        decreases world.stopAfter - world.tests
      {
        Sample();
        stop := Over();
        running := world.Running();
      }
    }
  }

  /** With a rate of at least two bytes a second and any time limit, a read task sends no more than its rate allows. */
  method ReadAtRate(control: DeliveryControl, world: World) returns (task: ReadTask)
    requires world.got == world.pushed == []
    modifies world
    ensures var rate := control.maxBytesPerSecond;
            2 <= rate ==>
              && Bytes(world.pushed) <= rate +
                 Accrued(rate, Max(0, Millis(task.bucket.timestamp - task.start.timestamp)))
              && task.start.timestamp <= task.bucket.timestamp <= world.time
    ensures 1 <= control.maxSamples < MAX_SAMPLES_UNLIMITED ==> |world.pushed| <= control.maxSamples
  {
    task := new ReadTask(control, world);
    task.Run();
  }

  /** The other two limits do not bound the samples: 0 is passed by the first sample, and 0xFFFF means no limit. */
  method OverrunsLimit(maxSamples: uint16) returns (world: World)
    requires maxSamples == 0 || maxSamples == MAX_SAMPLES_UNLIMITED
    ensures |world.pushed| > maxSamples
  {
    world := new World(3 * maxSamples + 4, _ => 0, _ => Some([]), _ => true);
    var task := new ReadTask(DeliveryControl(maxSamples, 0, 0), world);
    task.Run();
  }

  lemma FirstOf<T>(part: seq<T>, whole: seq<T>)
    requires part <= whole
    ensures part != [] ==> part[0] in part && part[0] in whole
  {
    assert part != [] ==> part[0] == whole[0];
  }

  /** A sample of two bytes at one byte a second, a limit of one second, and a clock that is past it at the second
      look: the thread tries for as long as nobody stops it, and pushes nothing. */
  method OutlastsTimeLimit(tries: nat) returns (world: World)
    ensures world.tests > tries && world.pushed == []
  {
    var sample: seq<byte> := [0, 0];
    world := new World(tries + 1, k => k * 2_000_000_000, _ => Some(sample), _ => true);
    var task := new ReadTask(DeliveryControl(MAX_SAMPLES_UNLIMITED, 1, 1), world);
    task.Run();
    assert world.Offers(sample) && |sample| > task.bucket.capacity;
    FirstOf(world.pushed, world.got);
  }
}
