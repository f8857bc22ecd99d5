/**
 * CDR primitives as section 7.4.1 of OMG DDS-XTypes 1.3 defines them: a number of k bytes starts at a multiple of k,
 * measured from the start of the buffer.  The host, and therefore the serializer, is little-endian.
 */
module Cdrs {

  import opened Words

  /** What one `<<` puts into the buffer: a number, or bytes without alignment. */
  datatype Item = U8(octet: byte) | U16(half: uint16) | U32(word: uint32) | Raw(bytes: seq<byte>)

  /** `Cdr::alignment`, for the sizes that occur. */
  function Pad(pos: nat, size: nat): (n: nat)
    requires size == 1 || size == 2 || size == 4
    ensures n < size
  {
    if size == 4 then (4 - pos % 4) % 4 else if size == 2 then pos % 2 else 0
  }

  function AlignmentOf(i: Item): nat
    ensures AlignmentOf(i) == 1 || AlignmentOf(i) == 2 || AlignmentOf(i) == 4
  {
    match i
    case U8(_) => 1
    case U16(_) => 2
    case U32(_) => 4
    case Raw(_) => 1
  }

  function ContentsOf(i: Item): seq<byte> {
    match i
    case U8(b) => [b]
    case U16(n) => [n % 0x100, n / 0x100]
    case U32(n) => [n % 0x100, n / 0x100 % 0x100, n / 0x1_0000 % 0x100, n / 0x100_0000]
    case Raw(bytes) => bytes
  }

  function Zeros(n: nat): (s: seq<byte>)
    ensures |s| == n
  {
    seq(n, _ => 0)
  }

  function EncodeItem(i: Item, pos: nat): seq<byte> {
    Zeros(Pad(pos, AlignmentOf(i))) + ContentsOf(i)
  }

  /** The bytes that items take at a position of the buffer, padding included. */
  function Encode(items: seq<Item>, pos: nat): seq<byte> {
    if items == [] then []
    else
      var head := EncodeItem(items[0], pos);
      head + Encode(items[1..], pos + |head|)
  }

  lemma {:induction false} EncodeAppend(a: seq<Item>, b: seq<Item>, pos: nat)
    ensures Encode(a + b, pos) == Encode(a, pos) + Encode(b, pos + |Encode(a, pos)|)
  {
    hide EncodeItem;
    if a == [] {
      assert a + b == b;
    } else {
      var head := EncodeItem(a[0], pos);
      var (middle, tail) := (Encode(a[1..], pos + |head|), Encode(b, pos + |head| + |Encode(a[1..], pos + |head|)|));
      assert Encode(a + b, pos) == head + (middle + tail) by {
        EncodeAppend(a[1..], b, pos + |head|);
        assert (a + b)[1..] == a[1..] + b;
      }
      assert head + (middle + tail) == (head + middle) + tail;
    }
  }

  lemma ShiftKeepsRemainder(pos: nat, other: nat, n: nat)
    requires pos % 4 == other % 4
    ensures (pos + n) % 4 == (other + n) % 4 && pos % 2 == other % 2
  {
    var (p, q, k) := (pos / 4, other / 4, (pos % 4 + n) / 4);
    RemainderIs(pos + n, p + k, (pos % 4 + n) % 4);
    RemainderIs(other + n, q + k, (pos % 4 + n) % 4);
    ParityIs(pos, p, pos % 4);
    ParityIs(other, q, pos % 4);
  }

  lemma RemainderIs(n: nat, q: nat, r: nat)
    requires r < 4 && n == 4 * q + r
    ensures n % 4 == r
  {
  }

  lemma ParityIs(n: nat, q: nat, r: nat)
    requires r < 4 && n == 4 * q + r
    ensures n % 2 == r % 2
  {
    var k := 2 * q + r / 2;
    assert n == 2 * k + r % 2;
  }

  lemma ItemFromMultipleOfFour(item: Item, pos: nat, other: nat)
    requires pos % 4 == other % 4 && pos % 2 == other % 2
    ensures EncodeItem(item, pos) == EncodeItem(item, other)
  {
  }

  /** Nothing is aligned to more than four bytes, so an encoding does not depend on which multiple of four it starts
      at. */
  lemma {:induction false} EncodeFromMultipleOfFour(items: seq<Item>, pos: nat, other: nat)
    requires pos % 4 == other % 4
    ensures Encode(items, pos) == Encode(items, other)
    decreases |items|
  {
    if items != [] {
      ShiftKeepsRemainder(pos, other, |EncodeItem(items[0], pos)|);
      ItemFromMultipleOfFour(items[0], pos, other);
      hide EncodeItem;
      var n := |EncodeItem(items[0], pos)|;
      EncodeFromMultipleOfFour(items[1..], pos + n, other + n);
    }
  }

  // ---------- reading ----------

  /**
   * The outcome of reading: a value and the new position, the position at which the buffer was too short, or the
   * position of a byte that is malformed there or announces a variant outside this model.
   */
  datatype Got<+T> = Got(value: T, pos: nat) | Short(at: nat) | Other(at: nat)
  {
    /** Reading never moves back, and not beyond a buffer it started in. */
    predicate Within(start: nat, size: nat) {
      Got? ==> start <= pos && (start <= size ==> pos <= size)
    }

    predicate IsFailure() {
      !Got?
    }

    function PropagateFailure<U>(): Got<U>
      requires !Got?
    {
      if Short? then Short(at) else Other(at)
    }

    function Extract(): (T, nat)
      requires Got?
    {
      (value, pos)
    }
  }

  function GetRaw(buf: seq<byte>, pos: nat, n: nat): (got: Got<seq<byte>>)
    ensures got.Within(pos, |buf|)
  {
    if pos + n <= |buf| then Got(buf[pos..pos + n], pos + n) else Short(pos)
  }

  function Get8(buf: seq<byte>, pos: nat): (got: Got<byte>)
    ensures got.Within(pos, |buf|)
  {
    if pos < |buf| then Got(buf[pos], pos + 1) else Short(pos)
  }

  /** The number with these bytes, least significant first. */
  function Joined16(b0: int, b1: int): uint16
    requires 0 <= b0 < 0x100 && 0 <= b1 < 0x100
  {
    b0 + 0x100 * b1
  }

  function Joined32(b0: int, b1: int, b2: int, b3: int): uint32
    requires 0 <= b0 < 0x100 && 0 <= b1 < 0x100 && 0 <= b2 < 0x100 && 0 <= b3 < 0x100
  {
    b0 + 0x100 * b1 + 0x1_0000 * b2 + 0x100_0000 * b3
  }

  function Get16(buf: seq<byte>, pos: nat, little: bool): (got: Got<uint16>)
    ensures got.Within(pos, |buf|)
  {
    var p := pos + Pad(pos, 2);
    if p + 2 > |buf| then Short(pos)
    else Got(if little then Joined16(buf[p], buf[p + 1]) else Joined16(buf[p + 1], buf[p]), p + 2)
  }

  function Get32(buf: seq<byte>, pos: nat, little: bool): (got: Got<uint32>)
    ensures got.Within(pos, |buf|)
  {
    var p := pos + Pad(pos, 4);
    if p + 4 > |buf| then Short(pos)
    else
      var (b0, b1, b2, b3) := (buf[p], buf[p + 1], buf[p + 2], buf[p + 3]);
      Got(if little then Joined32(b0, b1, b2, b3) else Joined32(b3, b2, b1, b0), p + 4)
  }

  /** The buffer holds these bytes at a position. */
  ghost predicate Holds(buf: seq<byte>, pos: nat, bytes: seq<byte>) {
    pos + |bytes| <= |buf| && buf[pos..pos + |bytes|] == bytes
  }

  lemma HoldsSplit(buf: seq<byte>, pos: nat, a: seq<byte>, b: seq<byte>)
    requires Holds(buf, pos, a + b)
    ensures Holds(buf, pos, a) && Holds(buf, pos + |a|, b)
  {
    var n, m := |a|, |b|;
    assert buf[pos..pos + n] == buf[pos..pos + n + m][..n] == (a + b)[..n];
    assert buf[pos + n..pos + n + m] == buf[pos..pos + n + m][n..] == (a + b)[n..];
  }

  /** Items encoded one after the other are held one after the other. */
  lemma HoldsParts(buf: seq<byte>, pos: nat, a: seq<Item>, b: seq<Item>)
    requires Holds(buf, pos, Encode(a + b, pos))
    ensures Holds(buf, pos, Encode(a, pos))
    ensures var next := pos + |Encode(a, pos)|;
            && Holds(buf, next, Encode(b, next))
            && next + |Encode(b, next)| == pos + |Encode(a + b, pos)|
  {
    EncodeAppend(a, b, pos);
    HoldsSplit(buf, pos, Encode(a, pos), Encode(b, pos + |Encode(a, pos)|));
  }

  lemma EncodeNone(pos: nat)
    ensures Encode([], pos) == []
  {
  }

  lemma EncodeOne(a: Item, pos: nat)
    ensures Encode([a], pos) == EncodeItem(a, pos)
  {
    hide EncodeItem;
    assert [a][1..] == [];
  }

  /** The second of two items starts where the first ends. */
  lemma EncodeTwo(a: Item, b: Item, pos: nat)
    ensures var next := pos + |EncodeItem(a, pos)|;
            Encode([a, b], pos) == EncodeItem(a, pos) + EncodeItem(b, next)
  {
    hide EncodeItem;
    assert [a, b][1..] == [b];
    EncodeOne(b, pos + |EncodeItem(a, pos)|);
  }

  lemma EncodeThree(a: Item, b: Item, c: Item, pos: nat)
    ensures var next := pos + |EncodeItem(a, pos)|;
            var last := next + |EncodeItem(b, next)|;
            Encode([a, b, c], pos) == EncodeItem(a, pos) + (EncodeItem(b, next) + EncodeItem(c, last))
  {
    hide EncodeItem;
    assert [a, b, c][1..] == [b, c];
    EncodeTwo(b, c, pos + |EncodeItem(a, pos)|);
  }

  lemma HoldsTwo(buf: seq<byte>, pos: nat, a: Item, b: Item)
    requires Holds(buf, pos, Encode([a, b], pos))
    ensures var next := pos + |EncodeItem(a, pos)|;
            && Holds(buf, pos, EncodeItem(a, pos))
            && Holds(buf, next, EncodeItem(b, next))
            && next + |EncodeItem(b, next)| == pos + |Encode([a, b], pos)|
  {
    hide EncodeItem, Encode, Holds;
    var next := pos + |EncodeItem(a, pos)|;
    EncodeTwo(a, b, pos);
    HoldsSplit(buf, pos, EncodeItem(a, pos), EncodeItem(b, next));
  }

  lemma HoldsThree(buf: seq<byte>, pos: nat, a: Item, b: Item, c: Item)
    requires Holds(buf, pos, Encode([a, b, c], pos))
    ensures var next := pos + |EncodeItem(a, pos)|;
            var last := next + |EncodeItem(b, next)|;
            && Holds(buf, pos, EncodeItem(a, pos))
            && Holds(buf, next, EncodeItem(b, next))
            && Holds(buf, last, EncodeItem(c, last))
            && last + |EncodeItem(c, last)| == pos + |Encode([a, b, c], pos)|
  {
    hide EncodeItem, Encode, Holds;
    var next := pos + |EncodeItem(a, pos)|;
    var last := next + |EncodeItem(b, next)|;
    EncodeThree(a, b, c, pos);
    HoldsSplit(buf, pos, EncodeItem(a, pos), EncodeItem(b, next) + EncodeItem(c, last));
    HoldsSplit(buf, next, EncodeItem(b, next), EncodeItem(c, last));
  }

  lemma HoldsContents(buf: seq<byte>, pos: nat, i: Item)
    requires Holds(buf, pos, EncodeItem(i, pos))
    ensures Holds(buf, pos + Pad(pos, AlignmentOf(i)), ContentsOf(i))
  {
    HoldsSplit(buf, pos, Zeros(Pad(pos, AlignmentOf(i))), ContentsOf(i));
  }

  lemma Gets8(buf: seq<byte>, pos: nat, b: byte)
    requires Holds(buf, pos, EncodeItem(U8(b), pos))
    ensures Get8(buf, pos) == Got(b, pos + |EncodeItem(U8(b), pos)|)
  {
    HoldsContents(buf, pos, U8(b));
    assert buf[pos..pos + 1][0] == b;
  }

  lemma GetsRaw(buf: seq<byte>, pos: nat, bytes: seq<byte>)
    requires Holds(buf, pos, EncodeItem(Raw(bytes), pos))
    ensures GetRaw(buf, pos, |bytes|) == Got(bytes, pos + |EncodeItem(Raw(bytes), pos)|)
  {
    HoldsContents(buf, pos, Raw(bytes));
  }

  lemma RawSize(bytes: seq<byte>, pos: nat)
    ensures |EncodeItem(Raw(bytes), pos)| == |bytes|
  {
  }

  /** A 16-bit number as it is read with one or the other byte order. */
  function Seen16(n: uint16, little: bool): uint16 {
    if little then n else n % 0x100 * 0x100 + n / 0x100
  }

  lemma Gets16(buf: seq<byte>, pos: nat, n: uint16, little: bool)
    requires Holds(buf, pos, EncodeItem(U16(n), pos))
    ensures Get16(buf, pos, little) == Got(Seen16(n, little), pos + |EncodeItem(U16(n), pos)|)
  {
    HoldsContents(buf, pos, U16(n));
    var p := pos + Pad(pos, 2);
    assert buf[p] == buf[p..p + 2][0] && buf[p + 1] == buf[p..p + 2][1];
  }

  lemma FourBytes(n: uint32)
    ensures n == n % 0x100 + 0x100 * (n / 0x100 % 0x100) + 0x1_0000 * (n / 0x1_0000 % 0x100) +
            0x100_0000 * (n / 0x100_0000)
  {
    assert n / 0x100 / 0x100 == n / 0x1_0000;
    assert n / 0x1_0000 / 0x100 == n / 0x100_0000;
  }

  function Seen32(n: uint32, little: bool): uint32 {
    if little then n else Joined32(n / 0x100_0000, n / 0x1_0000 % 0x100, n / 0x100 % 0x100, n % 0x100)
  }

  lemma Gets32(buf: seq<byte>, pos: nat, n: uint32, little: bool)
    requires Holds(buf, pos, EncodeItem(U32(n), pos))
    ensures Get32(buf, pos, little) == Got(Seen32(n, little), pos + |EncodeItem(U32(n), pos)|)
  {
    HoldsContents(buf, pos, U32(n));
    var p := pos + Pad(pos, 4);
    var bytes := buf[p..p + 4];
    assert buf[p] == bytes[0] && buf[p + 1] == bytes[1] && buf[p + 2] == bytes[2] && buf[p + 3] == bytes[3];
    FourBytes(n);
  }
}
