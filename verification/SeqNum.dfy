/** Sixteen-bit serial numbers (include/uxr/agent/utils/SeqNum.hpp).

    `Less`, `AddInt`, `AddSeq` and `Sub` follow the source's operators case by case.  The lemmas relate
    them to unbounded counters: a counter `n` is represented by `Image(n)`, and as long as two
    counters are at most 32767 apart nothing is lost by comparing their images.  This is the
    serial number arithmetic of RFC 1982 (sections 3.1 and 3.2, SERIAL_BITS = 16).
  */
module SeqNums {

  import opened Words

  const MAX := 0x1_0000
  const ADD_RANGE := 0x7FFF

  /** The 16-bit number that stands for an unbounded counter. */
  function Image(n: int): uint16 {
    n % MAX
  }

  /** How far `to` lies ahead of `from`, going round the 16-bit circle. */
  function Distance(from: uint16, to: uint16): uint16 {
    (to - from) % MAX
  }

  predicate Less(lhs: uint16, rhs: uint16) {
    && lhs != rhs
    && ((lhs < rhs && rhs - lhs < ADD_RANGE + 1) || (lhs > rhs && lhs - rhs > ADD_RANGE + 1))
  }

  predicate Greater(lhs: uint16, rhs: uint16) {
    Less(rhs, lhs)
  }

  predicate LessEq(lhs: uint16, rhs: uint16) {
    !Greater(lhs, rhs)
  }

  predicate GreaterEq(lhs: uint16, rhs: uint16) {
    !Less(lhs, rhs)
  }

  /** The increments that `operator+=(int)` accepts; the others leave the number alone. */
  predicate IntIncrement(rhs: int) {
    0 <= rhs <= ADD_RANGE
  }

  /** The increments that `operator+=(SeqNum)` accepts, written with the serial comparisons. */
  predicate SeqIncrement(rhs: uint16) {
    GreaterEq(rhs, 0) && LessEq(rhs, ADD_RANGE)
  }

  function AddInt(lhs: uint16, rhs: int): uint16 {
    if IntIncrement(rhs) then (lhs + rhs) % MAX else lhs
  }

  function AddSeq(lhs: uint16, rhs: uint16): uint16 {
    if SeqIncrement(rhs) then (lhs + rhs) % MAX else lhs
  }

  function Next(s: uint16): uint16 {
    if s == 0xFFFF then 0 else s + 1
  }

  /** `operator-=(int)`: the operand is first cut to sixteen bits. */
  function Sub(lhs: uint16, rhs: int): uint16 {
    var r := rhs % MAX;
    if r > lhs then lhs - r + MAX else lhs - r
  }

  /** The in-place form of the numbers: the operators that assign `seq_num_`. */
  class SeqNum {
    var value: uint16

    constructor (n: int)
      ensures value == Image(n)
    {
      value := n % MAX;
    }

    method AddAssign(rhs: int)
      modifies this
      ensures IntIncrement(rhs) ==> value == Image(old(value) + rhs)
      ensures !IntIncrement(rhs) ==> value == old(value)
    {
      if rhs >= 0 && rhs <= ADD_RANGE {
        value := (value + rhs) % MAX;
      }
    }

    method AddAssignSeq(rhs: uint16)
      modifies this
      ensures rhs <= ADD_RANGE ==> value == Image(old(value) + rhs)
      ensures rhs > ADD_RANGE ==> value == old(value)
    {
      IncrementFormsAgree(rhs);
      if GreaterEq(rhs, 0) && LessEq(rhs, ADD_RANGE) {
        value := (value + rhs) % MAX;
      }
    }

    method Increment()
      modifies this
      ensures value == Image(old(value) + 1)
    {
      value := if value == 0xFFFF then 0 else value + 1;
    }

    method SubAssign(rhs: int)
      modifies this
      ensures value == Image(old(value) - rhs)
    {
      var r := rhs % MAX;
      SubIsCircular(value, rhs);
      if r > value {
        value := value - r + MAX;
      } else {
        value := value - r;
      }
    }
  }

  /** RFC 1982: `lhs < rhs` holds exactly when `rhs` is 1 to 32767 steps ahead. */
  lemma LessIsShortDistance(lhs: uint16, rhs: uint16)
    ensures Less(lhs, rhs) <==> 1 <= Distance(lhs, rhs) <= 32767
  {
    if lhs <= rhs {
      assert Distance(lhs, rhs) == rhs - lhs;
    } else {
      assert Distance(lhs, rhs) == rhs - lhs + MAX;
    }
  }

  /** Two different numbers are unordered exactly when they are half a circle apart. */
  lemma UnorderedIffOpposite(lhs: uint16, rhs: uint16)
    ensures lhs != rhs && !Less(lhs, rhs) && !Less(rhs, lhs) <==> Distance(lhs, rhs) == 32768
  {
    LessIsShortDistance(lhs, rhs);
    LessIsShortDistance(rhs, lhs);
    assert lhs != rhs ==> Distance(rhs, lhs) == MAX - Distance(lhs, rhs);
  }

  lemma DistanceOfImages(a: int, b: int)
    ensures Distance(Image(a), Image(b)) == (b - a) % MAX
  {
    var qa, qb := a / MAX, b / MAX;
    assert Image(b) - Image(a) == (b - a) - (qb - qa) * MAX;
    ModShift(b - a, qa - qb);
  }

  lemma ModShift(n: int, k: int)
    ensures (n + k * MAX) % MAX == n % MAX
  {
  }

  /** Counters at most 32767 apart compare like their images, in every direction. */
  lemma LessAbstractsCounters(a: int, b: int)
    requires -ADD_RANGE <= b - a <= ADD_RANGE
    ensures Less(Image(a), Image(b)) <==> a < b
    ensures LessEq(Image(a), Image(b)) <==> a <= b
    ensures Image(a) == Image(b) <==> a == b
  {
    DistanceOfImages(a, b);
    DistanceOfImages(b, a);
    LessIsShortDistance(Image(a), Image(b));
    LessIsShortDistance(Image(b), Image(a));
    if b < a {
      assert (b - a) % MAX == b - a + MAX;
    } else if a < b {
      assert (a - b) % MAX == a - b + MAX;
    }
  }

  lemma IncrementFormsAgree(rhs: uint16)
    ensures SeqIncrement(rhs) <==> IntIncrement(rhs)
  {
    LessIsShortDistance(rhs, 0);
    LessIsShortDistance(ADD_RANGE, rhs);
  }

  /** `++`, both forms of `+=`, and `-=` commute with the reduction to sixteen bits. */
  lemma ArithmeticCommutes(n: int, k: int)
    ensures Next(Image(n)) == Image(n + 1)
    ensures IntIncrement(k) ==> AddInt(Image(n), k) == AddSeq(Image(n), Image(k)) == Image(n + k)
    ensures Sub(Image(n), k) == Image(n - k)
  {
    AddCommutes(n, k);
    SubIsCircular(Image(n), k);
    ModShift(Image(n) - k, n / MAX);
  }

  lemma AddCommutes(n: int, k: int)
    ensures Next(Image(n)) == Image(n + 1)
    ensures IntIncrement(k) ==> AddInt(Image(n), k) == AddSeq(Image(n), Image(k)) == Image(n + k)
  {
    if IntIncrement(k) {
      IncrementFormsAgree(k);
    }
  }

  lemma SubIsCircular(s: uint16, k: int)
    ensures Sub(s, k) == Image(s - k)
  {
    ModShift(s - k % MAX, -(k / MAX));
    assert s - k == s - k % MAX + -(k / MAX) * MAX;
  }
}
