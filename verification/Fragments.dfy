/**
 * Submessages longer than the MTU travel as fragments
 * (include/uxr/agent/client/session/stream/OutputStream.hpp:326-375) and are put together again
 * (include/uxr/agent/client/session/stream/InputStream.hpp:368-402).
 */
module Fragments {

  import opened Arithmetic
  import opened Options
  import opened SeqNums
  import opened Words
  import M = Messages

  const SUBHEADER_SIZE := 4
  const FRAGMENT := 13
  const FLAG_LITTLE_ENDIANNESS := 1
  const FLAG_LAST_FRAGMENT := 2

  datatype Fragment = Fragment(bytes: seq<byte>, last: bool)

  /** Full fragments, then what is left. */
  function Split(data: seq<byte>, room: nat): seq<Fragment>
    requires room > 0
    decreases |data|
  {
    if |data| <= room then [Fragment(data, true)]
    else [Fragment(data[..room], false)] + Split(data[room..], room)
  }

  /** What one turn of the loop of `push_submessage` takes, in the sixteen bits of `fragment_size`.  The room behind the
      headers is negative for an MTU smaller than the headers. */
  function FragmentSize(size: nat, room: int, done: uint16): uint16 {
    (if size < done || size - done > room then room else size - done) % MAX
  }

  /** `serialized_size` after a number of turns. */
  function DoneAfter(size: nat, room: int, turns: nat): uint16 {
    if turns == 0 then 0
    else
      var done := DoneAfter(size, room, turns - 1);
      (done + FragmentSize(size, room, done)) % MAX
  }

  /** The test at the end of a turn lets the loop end. */
  predicate Leaves(size: nat, room: int, turns: nat) {
    turns > 0 && DoneAfter(size, room, turns) >= size
  }

  /** A turn copies no byte from behind the submessage. */
  predicate TurnInside(size: nat, room: int, turn: nat) {
    var done := DoneAfter(size, room, turn);
    done + FragmentSize(size, room, done) <= size
  }

  ghost predicate StaysInside(size: nat, room: int, turns: nat) {
    forall t :: 0 <= t < turns ==> TurnInside(size, room, t)
  }

  /** A turn stays within the submessage if and only if the MTU has room for the headers, or so much is left that the
      wrapped size fits; if sixteen bits can count the submessage, nothing is cut off. */
  lemma FragmentInside(size: nat, room: int, done: uint16)
    requires done <= size
    ensures done + FragmentSize(size, room, done) <= size <==> room >= 0 || done + room % MAX <= size
    ensures room >= 0 && size <= 0xFFFF ==>
              && FragmentSize(size, room, done) == (if size - done > room then room else size - done)
              && (done + FragmentSize(size, room, done)) % MAX == done + FragmentSize(size, room, done)
  {
    if room >= 0 {
      var n := if size - done > room then room else size - done;
      assert n % MAX <= n;
      if size <= 0xFFFF {
        assert n % MAX == n && (done + n) % MAX == done + n;
      }
    }
  }

  lemma {:induction false} DoneGrows(size: nat, room: nat, turns: nat)
    requires size <= 0xFFFF
    ensures DoneAfter(size, room, turns) <= size
    ensures room > 0 ==> DoneAfter(size, room, turns) >= turns || DoneAfter(size, room, turns) == size
    ensures TurnInside(size, room, turns)
  {
    hide FragmentSize;
    if turns > 0 {
      DoneGrows(size, room, turns - 1);
      FragmentInside(size, room, DoneAfter(size, room, turns - 1));
    }
    FragmentInside(size, room, DoneAfter(size, room, turns));
  }

  /** Without room no turn makes progress. */
  lemma {:induction false} NoRoomNoProgress(size: nat, turns: nat)
    ensures DoneAfter(size, 0, turns) == 0
  {
    if turns > 0 {
      NoRoomNoProgress(size, turns - 1);
    }
  }

  /** The loop ends without having left the submessage: sixteen bits can count it, and there is room for at least a
      byte, or the first turn takes all of it. */
  predicate Returns(size: nat, room: int) {
    size <= 0xFFFF && (room > 0 || size == room % MAX)
  }

  lemma SmallMtu(size: nat, room: int, turns: nat)
    requires -12 <= room < 0 && Leaves(size, room, turns) && StaysInside(size, room, turns)
    ensures size == room % MAX
  {
    assert TurnInside(size, room, 0);
    assert room % MAX == MAX + room;
    assert DoneAfter(size, room, 1) == MAX + room;
    assert turns > 1 ==> TurnInside(size, room, 1);
  }

  /** For every MTU: some number of turns ends the loop inside the submessage exactly if `Returns` says so.  An MTU with
      room for the headers never leaves the submessage, and ends the loop for at most 65535 bytes and room for one. */
  lemma LoopEndsIff(size: nat, room: int)
    requires -12 <= room
    ensures (exists turns :: Leaves(size, room, turns) && StaysInside(size, room, turns)) <==> Returns(size, room)
    ensures room >= 0 ==>
              ((exists turns :: Leaves(size, room, turns)) <==> size <= 0xFFFF && (room > 0 || size == 0))
  {
    hide FragmentSize, TurnInside;
    if room > 0 && size <= 0xFFFF {
      DoneGrows(size, room, size + 1);
      forall t | 0 <= t < size + 1
        ensures TurnInside(size, room, t)
      {
        DoneGrows(size, room, t);
      }
      assert Leaves(size, room, size + 1) && StaysInside(size, room, size + 1);
    } else if room <= 0 {
      FirstTurn(size, room);
      if room == 0 {
        forall turns: nat
          ensures DoneAfter(size, 0, turns) == 0
        {
          NoRoomNoProgress(size, turns);
        }
      } else {
        forall turns | Leaves(size, room, turns) && StaysInside(size, room, turns)
          ensures size == room % MAX
        {
          SmallMtu(size, room, turns);
        }
      }
    }
  }

  lemma FirstTurn(size: nat, room: int)
    requires -12 <= room <= 0
    ensures size == room % MAX ==> Leaves(size, room, 1) && StaysInside(size, room, 1)
  {
    if size == room % MAX {
      assert DoneAfter(size, room, 0) == 0;
      assert FragmentSize(size, room, 0) == size;
      assert DoneAfter(size, room, 1) == size;
    }
  }

  /** One byte more than the counter can hold, with room for 500 bytes in a message: the loop goes on for ever. */
  lemma LongSubmessageNeverEnds(turns: nat)
    ensures !Leaves(0x1_0000, 500, turns)
  {
    LoopEndsIff(0x1_0000, 500);
  }

  /** An MTU of 8 is just the headers of a fragment in a session without a key: ten bytes are never through. */
  lemma NoRoomNeverEnds(turns: nat)
    ensures !Leaves(10, 8 - 4 - SUBHEADER_SIZE, turns)
  {
    LoopEndsIff(10, 0);
  }

  /** An MTU of 7 is one byte less: already the first turn copies from behind those ten bytes. */
  lemma SmallMtuLeavesSubmessage()
    ensures !TurnInside(10, 7 - 4 - SUBHEADER_SIZE, 0)
  {
    FragmentInside(10, -1, 0);
  }

  /** How the loop stands after some turns: it has ended, it has left the submessage, or it goes on. */
  datatype Ending = Left | Outside | Going

  /** The loop, watched for some turns, for every MTU. */
  method SplitSubmessage(data: seq<byte>, mtu: nat, headerSize: nat, turns: nat)
    returns (end: Ending, fragments: seq<Fragment>)
    requires headerSize <= 8
    ensures var room := mtu - headerSize - SUBHEADER_SIZE;
            && (end.Left? <==> turns > 0 && Returns(|data|, room) && (room > 0 ==> |Split(data, room)| <= turns))
            && (end.Left? ==> fragments == if room > 0 then Split(data, room) else [Fragment(data, room == 0)])
            && (end.Outside? ==> room < 0)
            && (room < 0 && turns > 1 && |data| <= 0xFFFF && !Returns(|data|, room) ==> end.Outside?)
            && (end.Going? ==> |fragments| == turns)
    ensures forall x :: x in fragments ==> |x.bytes| <= 0xFFFF
  {
    var room := mtu - headerSize - SUBHEADER_SIZE;
    if room > 0 {
      end, fragments := SplitWithRoom(data, room, turns);
    } else {
      end, fragments := SplitWithoutRoom(data, room, turns);
    }
  }

  method SplitWithRoom(data: seq<byte>, room: nat, turns: nat) returns (end: Ending, fragments: seq<Fragment>)
    requires room > 0
    ensures end.Left? <==> |data| <= 0xFFFF && |Split(data, room)| <= turns
    ensures end.Left? ==> fragments == Split(data, room)
    ensures !end.Left? ==> end.Going? && |fragments| == turns
    ensures |Split(data, room)| > 0
    ensures forall x :: x in fragments ==> |x.bytes| <= 0xFFFF
  {
    hide FragmentSize, Split;
    var done: uint16 := 0;
    assert data[0..] == data;
    SplitNotEmpty(data, room);
    fragments, end := [], Going;
    while |fragments| < turns
      invariant end.Going? && done <= |data| && |fragments| <= turns
      invariant |data| <= 0xFFFF ==> Split(data, room) == fragments + Split(data[done..], room)
      invariant forall x :: x in fragments ==> |x.bytes| <= 0xFFFF
      decreases turns - |fragments|
    {
      SplitNotEmpty(data[done..], room);
      var last := !(|data| - done > room);
      var size: uint16 := FragmentSize(|data|, room, done);
      FragmentInside(|data|, room, done);
      fragments := fragments + [Fragment(data[done..done + size], last)];
      if |data| <= 0xFFFF {
        SplitFirst(data, done, room);
      }
      done := (done + size) % MAX;
      if done >= |data| {
        end := Left;
        return;
      }
    }
    SplitNotEmpty(data[done..], room);
  }

  method SplitWithoutRoom(data: seq<byte>, room: int, turns: nat) returns (end: Ending, fragments: seq<Fragment>)
    requires -12 <= room <= 0
    ensures end.Left? <==> turns > 0 && Returns(|data|, room)
    ensures end.Left? ==> fragments == [Fragment(data, room == 0)]
    ensures end.Outside? ==> room < 0
    ensures room < 0 && turns > 1 && |data| <= 0xFFFF && !Returns(|data|, room) ==> end.Outside?
    ensures end.Going? ==> |fragments| == turns
    ensures forall x :: x in fragments ==> |x.bytes| <= 0xFFFF
  {
    var done: uint16 := 0;
    fragments, end := [], Going;
    while |fragments| < turns
      invariant end.Going? && |fragments| <= turns
      invariant done <= |data| && (|fragments| > 0 ==> done < |data| && !Returns(|data|, room))
      invariant room == 0 || |fragments| == 0 ==> done == 0
      invariant room < 0 && |fragments| == 1 ==> done == MAX + room
      invariant room < 0 && |data| <= 0xFFFF ==> |fragments| <= 1
      invariant forall x :: x in fragments ==> |x.bytes| <= 0xFFFF
      decreases turns - |fragments|
    {
      assert room < 0 ==> room % MAX == MAX + room;
      var last := !(|data| - done > room);
      var size: uint16 := FragmentSize(|data|, room, done);
      FragmentInside(|data|, room, done);
      if done + size > |data| {
        end := Outside;
        return;
      }
      fragments := fragments + [Fragment(data[done..done + size], last)];
      done := (done + size) % MAX;
      if done >= |data| {
        end := Left;
        assert data[0..|data|] == data;
        return;
      }
    }
  }

  lemma SplitNotEmpty(data: seq<byte>, room: nat)
    requires room > 0
    ensures 1 <= |Split(data, room)| <= |data| + 1
  {
  }

  /** The first fragment of what is left, and what is left behind it. */
  lemma SplitFirst(data: seq<byte>, done: uint16, room: nat)
    requires room > 0 && done <= |data| <= 0xFFFF
    ensures var size := FragmentSize(|data|, room, done);
            && done + size <= |data|
            && (if |data| - done > room
                then Split(data[done..], room) ==
                  [Fragment(data[done..done + size], false)] + Split(data[done + size..], room)
                else done + size == |data| && Split(data[done..], room) == [Fragment(data[done..done + size], true)])
  {
    FragmentInside(|data|, room, done);
    var size := FragmentSize(|data|, room, done);
    hide FragmentSize;
    assert done + size == |data| ==> data[done..done + size] == data[done..];
    assert data[done..][..size] == data[done..done + size];
    assert data[done..][size..] == data[done + size..];
  }

  /** The fragment buffer of a reliable input stream. */
  class FragmentBuffer {
    var message: seq<byte>
    var available: bool

    constructor ()
      ensures message == [] && !available
    {
      message, available := [], false;
    }

    method PushFragment(header: seq<byte>, bytes: seq<byte>, last: bool)
      modifies this
      ensures message == (if old(message) == [] then header else old(message)) + bytes && available == last
    {
      if message == [] {
        message := header;
      }
      message := message + bytes;
      available := last;
    }

    method PopFragmentMessage() returns (popped: Option<seq<byte>>)
      modifies this
      ensures popped == if old(available) then Some(old(message)) else None
      ensures if old(available) then message == [] && !available else message == old(message) && !available
    {
      popped := None;
      if available {
        popped := Some(message);
        message, available := [], false;
      }
    }

    /** A message that arrives is handed on, or its fragment is added to the buffer, which is handed on when it is
        complete. */
    method Take(bytes: seq<byte>) returns (handed: seq<seq<byte>>)
      requires !available
      modifies this
      ensures !available && (message, handed) == Taken(old(message), Decoded(bytes))
    {
      var input := new M.InputMessage(bytes);
      handed := [bytes];
      if input.header.Some? {
        var prepared := input.PrepareNextSubmessage();
        if prepared && input.subheader.id == FRAGMENT {
          var header := M.RawHeader(bytes, input.header.value.session);
          var payload := M.RawPayload(bytes, input.pos, input.subheader.length);
          PushFragment(header, payload, input.subheader.flags / FLAG_LAST_FRAGMENT % 2 == 1);
          var popped := PopFragmentMessage();
          handed := if popped.Some? then [popped.value] else [];
        }
      }
    }
  }

  /** A message of the stream: a whole submessage behind its header, or a fragment. */
  datatype Body = Whole(bytes: seq<byte>) | Piece(header: seq<byte>, bytes: seq<byte>, last: bool)

  /** What the bytes of a message say: its first submessage is a fragment, or it is handed on as it is. */
  function Decoded(bytes: seq<byte>): Body {
    match M.GetHeader(bytes, 0)
    case Got(header, p) =>
      (match M.NextSubheader(bytes, p)
       case Got(sub, q) =>
         if sub.id == FRAGMENT
         then Piece(M.RawHeader(bytes, header.session), M.RawPayload(bytes, q, sub.length),
                    sub.flags / FLAG_LAST_FRAGMENT % 2 == 1)
         else Whole(bytes)
       case _ => Whole(bytes))
    case _ => Whole(bytes)
  }

  function Taken(buffer: seq<byte>, body: Body): (seq<byte>, seq<seq<byte>>) {
    match body
    case Whole(bytes) => (buffer, [bytes])
    case Piece(header, bytes, last) =>
      var message := (if buffer == [] then header else buffer) + bytes;
      if last then ([], [message]) else (message, [])
  }

  /** What is left in the buffer, and what was handed on, after some messages. */
  function Handled(buffer: seq<byte>, bodies: seq<Body>): (seq<byte>, seq<seq<byte>>)
    decreases |bodies|
  {
    if bodies == [] then (buffer, [])
    else
      var (next, handed) := Taken(buffer, bodies[0]);
      var (end, more) := Handled(next, bodies[1..]);
      (end, handed + more)
  }

  /** Message `n` of the stream starts with `header(n)`, which holds its sequence number. */
  function Pieces(header: nat -> seq<byte>, n: nat, fragments: seq<Fragment>): seq<Body>
    decreases |fragments|
  {
    if fragments == [] then []
    else [Piece(header(n), fragments[0].bytes, fragments[0].last)] + Pieces(header, n + 1, fragments[1..])
  }

  /** The submessage travels in fragments. */
  predicate Cut(header: nat -> seq<byte>, n: nat, data: seq<byte>, mtu: nat) {
    |header(n)| + |data| > mtu
  }

  /** A submessage fits in one message, or its fragments have room for at least a byte. */
  predicate Passes(header: nat -> seq<byte>, n: nat, data: seq<byte>, mtu: nat) {
    !Cut(header, n, data, mtu) || |header(n)| + SUBHEADER_SIZE < mtu
  }

  ghost predicate Fits(header: nat -> seq<byte>, subs: seq<seq<byte>>, mtu: nat) {
    && (forall n :: header(n) != [])
    && (forall n, d :: d in subs ==> Passes(header, n, d, mtu))
  }

  lemma FitsRest(header: nat -> seq<byte>, subs: seq<seq<byte>>, mtu: nat)
    requires subs != [] && Fits(header, subs, mtu)
    ensures Fits(header, subs[1..], mtu)
  {
    hide Passes;
    assert forall d :: d in subs[1..] ==> d in subs;
  }

  /** The messages that one submessage becomes, the first of them number `n`; none, if the loop gets nowhere. */
  function Bodies(header: nat -> seq<byte>, n: nat, data: seq<byte>, mtu: nat): seq<Body> {
    if !Cut(header, n, data, mtu) then [Whole(header(n) + data)]
    else if Passes(header, n, data, mtu) then Pieces(header, n, Split(data, mtu - |header(n)| - SUBHEADER_SIZE))
    else []
  }

  /** The messages of the stream that carry some submessages, from message `n` on. */
  ghost function Stream(header: nat -> seq<byte>, n: nat, subs: seq<seq<byte>>, mtu: nat): seq<Body>
    decreases |subs|
  {
    if subs == [] then []
    else
      var first := Bodies(header, n, subs[0], mtu);
      first + Stream(header, n + |first|, subs[1..], mtu)
  }

  /** What the receiver should hand on: every submessage behind the header of the first message that carried it. */
  ghost function Wanted(header: nat -> seq<byte>, n: nat, subs: seq<seq<byte>>, mtu: nat): seq<seq<byte>>
    decreases |subs|
  {
    if subs == [] then []
    else [header(n) + subs[0]] + Wanted(header, n + |Bodies(header, n, subs[0], mtu)|, subs[1..], mtu)
  }

  lemma {:induction false} WantedLength(header: nat -> seq<byte>, n: nat, subs: seq<seq<byte>>, mtu: nat)
    ensures |Wanted(header, n, subs, mtu)| == |subs|
    decreases |subs|
  {
    if subs != [] {
      WantedLength(header, n + |Bodies(header, n, subs[0], mtu)|, subs[1..], mtu);
    }
  }

  lemma HandledCons(buffer: seq<byte>, body: Body, rest: seq<Body>)
    ensures var (next, handed) := Taken(buffer, body);
            Handled(buffer, [body] + rest) == (Handled(next, rest).0, handed + Handled(next, rest).1)
  {
    assert ([body] + rest)[1..] == rest;
  }

  lemma HandledFirst(buffer: seq<byte>, bodies: seq<Body>)
    requires bodies != []
    ensures var (next, handed) := Taken(buffer, bodies[0]);
            Handled(buffer, bodies) == (Handled(next, bodies[1..]).0, handed + Handled(next, bodies[1..]).1)
  {
  }

  lemma {:induction false} HandledAppend(buffer: seq<byte>, a: seq<Body>, b: seq<Body>)
    ensures var middle := Handled(buffer, a).0;
            Handled(buffer, a + b) == (Handled(middle, b).0, Handled(buffer, a).1 + Handled(middle, b).1)
    decreases |a|
  {
    if a == [] {
      assert a + b == b;
      assert [] + Handled(buffer, b).1 == Handled(buffer, b).1;
    } else {
      hide Handled, Taken;
      HandledFirst(buffer, a);
      HandledFirst(buffer, a + b);
      assert (a + b)[0] == a[0] && (a + b)[1..] == a[1..] + b;
      var (next, handed) := Taken(buffer, a[0]);
      HandledAppend(next, a[1..], b);
      var (middle, first) := Handled(next, a[1..]);
      Associative(handed, first, Handled(middle, b).1);
    }
  }

  lemma PiecesCons(header: nat -> seq<byte>, n: nat, first: Fragment, rest: seq<Fragment>)
    ensures Pieces(header, n, [first] + rest) ==
            [Piece(header(n), first.bytes, first.last)] + Pieces(header, n + 1, rest)
  {
    assert ([first] + rest)[1..] == rest;
  }

  /** The fragments of a submessage hand on nothing until the last one, and then exactly the submessage. */
  lemma {:induction false} PiecesReassemble(header: nat -> seq<byte>, n: nat, data: seq<byte>, room: nat,
                                            buffer: seq<byte>)
    requires room > 0 && (header(n) != [] || buffer != [])
    ensures Handled(buffer, Pieces(header, n, Split(data, room))) ==
            ([], [(if buffer == [] then header(n) else buffer) + data])
    decreases |data|
  {
    hide Handled, Pieces;
    var start := if buffer == [] then header(n) else buffer;
    if |data| <= room {
      assert Split(data, room) == [Fragment(data, true)] + [];
      PiecesCons(header, n, Fragment(data, true), []);
      HandledCons(buffer, Piece(header(n), data, true), Pieces(header, n + 1, []));
      NothingHandled(header, n + 1);
      assert [start + data] + [] == [start + data];
    } else {
      var (first, rest) := (Fragment(data[..room], false), Split(data[room..], room));
      PiecesCons(header, n, first, rest);
      HandledCons(buffer, Piece(header(n), first.bytes, false), Pieces(header, n + 1, rest));
      PiecesReassemble(header, n + 1, data[room..], room, start + first.bytes);
      assert start + first.bytes + data[room..] == start + data;
      assert [] + [start + data] == [start + data];
    }
  }

  lemma NothingHandled(header: nat -> seq<byte>, n: nat)
    ensures Handled([], Pieces(header, n, [])) == ([], [])
  {
  }

  lemma BodiesReassemble(header: nat -> seq<byte>, n: nat, data: seq<byte>, mtu: nat)
    requires header(n) != [] && Passes(header, n, data, mtu)
    ensures Handled([], Bodies(header, n, data, mtu)) == ([], [header(n) + data])
  {
    if !Cut(header, n, data, mtu) {
      assert Bodies(header, n, data, mtu) == [Whole(header(n) + data)] + [];
      HandledCons([], Whole(header(n) + data), []);
      assert [header(n) + data] + [] == [header(n) + data];
    } else {
      PiecesReassemble(header, n, data, mtu - |header(n)| - SUBHEADER_SIZE, []);
    }
  }

  /** A stream of submessages, whole or in fragments, comes out as it went in, with nothing left in the buffer. */
  lemma {:induction false} StreamReassembles(header: nat -> seq<byte>, n: nat, subs: seq<seq<byte>>, mtu: nat)
    requires Fits(header, subs, mtu)
    ensures Handled([], Stream(header, n, subs, mtu)) == ([], Wanted(header, n, subs, mtu))
    decreases |subs|
  {
    if subs != [] {
      var first := Bodies(header, n, subs[0], mtu);
      assert Passes(header, n, subs[0], mtu);
      FitsRest(header, subs, mtu);
      BodiesReassemble(header, n, subs[0], mtu);
      StreamReassembles(header, n + |first|, subs[1..], mtu);
      HandledAppend([], first, Stream(header, n + |first|, subs[1..], mtu));
    }
  }

  lemma PrefixHandsOnPrefix(bodies: seq<Body>, whole: seq<Body>)
    requires bodies <= whole
    ensures Handled([], bodies).1 <= Handled([], whole).1
  {
    hide Handled;
    assert whole == bodies + whole[|bodies|..];
    HandledAppend([], bodies, whole[|bodies|..]);
  }

  /** Any first part of a stream hands on a first part of the submessages, in order, each once and unchanged; the
      whole hands on all. */
  lemma StreamHandsOnSubmessages(bodies: seq<Body>, header: nat -> seq<byte>, subs: seq<seq<byte>>, mtu: nat)
    requires Fits(header, subs, mtu) && bodies <= Stream(header, 0, subs, mtu)
    ensures Handled([], bodies).1 <= Wanted(header, 0, subs, mtu)
    ensures bodies == Stream(header, 0, subs, mtu) ==> Handled([], bodies) == ([], Wanted(header, 0, subs, mtu))
  {
    hide Handled, Stream, Wanted, Fits;
    StreamReassembles(header, 0, subs, mtu);
    PrefixHandsOnPrefix(bodies, Stream(header, 0, subs, mtu));
  }

  lemma {:induction false} PiecesLength(header: nat -> seq<byte>, n: nat, fragments: seq<Fragment>)
    ensures |Pieces(header, n, fragments)| == |fragments|
    decreases |fragments|
  {
    if fragments != [] {
      PiecesLength(header, n + 1, fragments[1..]);
    }
  }

  lemma {:induction false} PiecesOneMore(header: nat -> seq<byte>, n: nat, fragments: seq<Fragment>, i: nat)
    requires i < |fragments|
    ensures Pieces(header, n, fragments[..i + 1]) ==
            Pieces(header, n, fragments[..i]) + [Piece(header(n + i), fragments[i].bytes, fragments[i].last)]
    decreases i
  {
    if i == 0 {
      assert fragments[..1][1..] == [] && fragments[..1][0] == fragments[0];
    } else {
      var tail := fragments[1..];
      assert fragments[..i + 1][1..] == tail[..i] && fragments[..i][1..] == tail[..i - 1];
      PiecesOneMore(header, n + 1, tail, i - 1);
    }
  }

  // ---------- streams that grow ----------

  /** The next submessage goes behind the others, under the next free numbers. */
  lemma {:induction false} StreamAppend(header: nat -> seq<byte>, n: nat, subs: seq<seq<byte>>, data: seq<byte>,
                                        mtu: nat)
    ensures var stream := Stream(header, n, subs, mtu);
            Stream(header, n, subs + [data], mtu) == stream + Bodies(header, n + |stream|, data, mtu)
    decreases |subs|
  {
    hide Bodies;
    if subs == [] {
      assert ([] + [data])[1..] == [];
      assert Stream(header, n + |Bodies(header, n, data, mtu)|, [], mtu) == [];
    } else {
      var first := Bodies(header, n, subs[0], mtu);
      assert (subs + [data])[1..] == subs[1..] + [data];
      StreamAppend(header, n + |first|, subs[1..], data, mtu);
      var rest := Stream(header, n + |first|, subs[1..], mtu);
      Associative(first, rest, Bodies(header, n + |first| + |rest|, data, mtu));
    }
  }

  /** The number of fragments of a submessage. */
  lemma {:induction false} SplitCount(data: seq<byte>, room: nat)
    requires room > 0
    ensures |Split(data, room)| == if data == [] then 1 else (|data| - 1) / room + 1
    decreases |data|
  {
    if |data| > room {
      SplitCount(data[room..], room);
      QuotientStep(|data| - 1, room);
    } else if data != [] {
      QuotientZero(|data| - 1, room);
    }
  }

  lemma QuotientStep(n: nat, d: nat)
    requires 0 < d <= n
    ensures (n - d) / d == n / d - 1
  {
    var q := (n - d) / d;
    assert n == (q + 1) * d + (n - d) % d;
    UniqueRemainder(n, d, q + 1, (n - d) % d);
  }

  lemma QuotientZero(n: nat, d: nat)
    requires n < d
    ensures n / d == 0
  {
    UniqueRemainder(n, d, 0, n);
  }

  // ---------- a buffer that is not empty ----------

  /** Some of the fragments of a submessage, but not all: what they carried stays in the buffer. */
  lemma {:induction false} PiecesInside(
      header: nat -> seq<byte>, n: nat, data: seq<byte>, room: nat, buffer: seq<byte>, i: nat)
    requires room > 0 && (header(n) != [] || buffer != []) && 0 < i < |Split(data, room)|
    ensures i <= |Pieces(header, n, Split(data, room))|
    ensures var (left, handed) := Handled(buffer, Pieces(header, n, Split(data, room))[..i]);
            handed == [] && |left| > |if buffer == [] then header(n) else buffer|
    decreases |data|
  {
    hide Handled, Pieces;
    PiecesLength(header, n, Split(data, room));
    var (first, rest) := (Fragment(data[..room], false), Split(data[room..], room));
    var start := (if buffer == [] then header(n) else buffer) + first.bytes;
    PiecesCons(header, n, first, rest);
    PiecesLength(header, n + 1, rest);
    var later := Pieces(header, n + 1, rest)[..i - 1];
    assert Pieces(header, n, Split(data, room))[..i] == [Piece(header(n), first.bytes, false)] + later;
    HandledCons(buffer, Piece(header(n), first.bytes, false), later);
    if i > 1 {
      PiecesInside(header, n + 1, data[room..], room, start, i - 1);
    } else {
      NothingMore(start, later);
    }
  }

  lemma NothingMore(buffer: seq<byte>, bodies: seq<Body>)
    requires bodies == []
    ensures Handled(buffer, bodies) == (buffer, [])
  {
  }

  /** So many messages of the stream end with a whole submessage. */
  ghost predicate AtBoundary(header: nat -> seq<byte>, n: nat, subs: seq<seq<byte>>, mtu: nat, length: nat)
    decreases |subs|
  {
    length == 0 ||
    (subs != [] &&
     var first := |Bodies(header, n, subs[0], mtu)|;
     first <= length && AtBoundary(header, n + first, subs[1..], mtu, length - first))
  }

  /** All headers are equally long. */
  ghost predicate SameLengths(header: nat -> seq<byte>) {
    forall n, m :: |header(n)| == |header(m)|
  }

  /** The first messages of one submessage leave something in the buffer exactly when they are some of its fragments
      but not all. */
  lemma BodiesInside(header: nat -> seq<byte>, n: nat, data: seq<byte>, mtu: nat, i: nat)
    requires header(n) != [] && 0 < i < |Bodies(header, n, data, mtu)|
    ensures |Handled([], Bodies(header, n, data, mtu)[..i]).0| > |header(n)|
  {
    if Cut(header, n, data, mtu) {
      var room := mtu - |header(n)| - SUBHEADER_SIZE;
      PiecesLength(header, n, Split(data, room));
      PiecesInside(header, n, data, room, [], i);
    }
  }

  /** After any first part of a stream the buffer is empty if and only if the part ends with a whole submessage;
      otherwise it holds more than a header. */
  lemma {:induction false} BufferEmptyIff(header: nat -> seq<byte>, n: nat, subs: seq<seq<byte>>, mtu: nat,
                                          bodies: seq<Body>)
    requires Fits(header, subs, mtu) && SameLengths(header) && bodies <= Stream(header, n, subs, mtu)
    ensures Handled([], bodies).0 == [] <==> AtBoundary(header, n, subs, mtu, |bodies|)
    ensures Handled([], bodies).0 != [] ==> |Handled([], bodies).0| > |header(0)|
    decreases |subs|
  {
    hide Handled, Bodies;
    if bodies == [] {
      NothingMore([], bodies);
    } else {
      var first := Bodies(header, n, subs[0], mtu);
      assert header(n) != [] && Passes(header, n, subs[0], mtu);
      FitsRest(header, subs, mtu);
      BodiesNotEmpty(header, n, subs[0], mtu);
      var rest := Stream(header, n + |first|, subs[1..], mtu);
      if |bodies| < |first| {
        assert bodies == first[..|bodies|];
        BodiesInside(header, n, subs[0], mtu, |bodies|);
        assert |header(n)| == |header(0)|;
      } else {
        var later := bodies[|first|..];
        assert bodies == first + later && later == rest[..|later|];
        AfterFirst(header, n, subs[0], mtu, later);
        BufferEmptyIff(header, n + |first|, subs[1..], mtu, later);
      }
    }
  }

  lemma BodiesNotEmpty(header: nat -> seq<byte>, n: nat, data: seq<byte>, mtu: nat)
    requires Passes(header, n, data, mtu)
    ensures |Bodies(header, n, data, mtu)| > 0
  {
    if Cut(header, n, data, mtu) {
      PiecesLength(header, n, Split(data, mtu - |header(n)| - SUBHEADER_SIZE));
    }
  }

  lemma AfterFirst(header: nat -> seq<byte>, n: nat, data: seq<byte>, mtu: nat, later: seq<Body>)
    requires header(n) != [] && Passes(header, n, data, mtu)
    ensures Handled([], Bodies(header, n, data, mtu) + later) ==
            (Handled([], later).0, [header(n) + data] + Handled([], later).1)
  {
    hide Handled, Bodies;
    BodiesReassemble(header, n, data, mtu);
    HandledAppend([], Bodies(header, n, data, mtu), later);
  }

  /** What comes out behind a buffer that is not empty: the first submessage in fragments is glued to what is there. */
  ghost function Glued(buffer: seq<byte>, header: nat -> seq<byte>, n: nat, subs: seq<seq<byte>>,
                       mtu: nat): seq<seq<byte>>
    decreases |subs|
  {
    if subs == [] then []
    else
      var next := n + |Bodies(header, n, subs[0], mtu)|;
      if Cut(header, n, subs[0], mtu) then [buffer + subs[0]] + Wanted(header, next, subs[1..], mtu)
      else [header(n) + subs[0]] + Glued(buffer, header, next, subs[1..], mtu)
  }

  /** No submessage travels in fragments, or the first that does finds just its own header in the buffer. */
  ghost predicate Harmless(buffer: seq<byte>, header: nat -> seq<byte>, n: nat, subs: seq<seq<byte>>, mtu: nat)
    decreases |subs|
  {
    subs == [] ||
    (if Cut(header, n, subs[0], mtu) then buffer == header(n)
     else Harmless(buffer, header, n + |Bodies(header, n, subs[0], mtu)|, subs[1..], mtu))
  }

  /** A submessage behind a buffer that is not empty comes out as it should if and only if it fits in one message, or
      the buffer is just its header. */
  lemma BodiesFromBufferIff(buffer: seq<byte>, header: nat -> seq<byte>, n: nat, data: seq<byte>, mtu: nat)
    requires buffer != [] && Passes(header, n, data, mtu)
    ensures Handled(buffer, Bodies(header, n, data, mtu)) ==
            if Cut(header, n, data, mtu) then ([], [buffer + data]) else (buffer, [header(n) + data])
    ensures Handled(buffer, Bodies(header, n, data, mtu)).1 == [header(n) + data] <==>
            !Cut(header, n, data, mtu) || buffer == header(n)
  {
    if Cut(header, n, data, mtu) {
      PiecesReassemble(header, n, data, mtu - |header(n)| - SUBHEADER_SIZE, buffer);
      SamePrefix(buffer, header(n), data);
    } else {
      assert Bodies(header, n, data, mtu) == [Whole(header(n) + data)] + [];
      HandledCons(buffer, Whole(header(n) + data), []);
      assert [header(n) + data] + [] == [header(n) + data];
    }
  }

  lemma SamePrefix<T>(a: seq<T>, b: seq<T>, c: seq<T>)
    ensures a + c == b + c <==> a == b
  {
    if a + c == b + c {
      assert |a| == |b|;
      assert (a + c)[..|a|] == a && (b + c)[..|a|] == b;
    }
  }

  lemma {:induction false} StreamFromBuffer(buffer: seq<byte>, header: nat -> seq<byte>, n: nat, subs: seq<seq<byte>>,
                                            mtu: nat)
    requires buffer != [] && Fits(header, subs, mtu)
    ensures Handled(buffer, Stream(header, n, subs, mtu)).1 == Glued(buffer, header, n, subs, mtu)
    decreases |subs|
  {
    hide Bodies, Handled;
    if subs == [] {
      NothingMore(buffer, Stream(header, n, subs, mtu));
    } else {
      assert Passes(header, n, subs[0], mtu);
      FitsRest(header, subs, mtu);
      hide Fits, Passes;
      var first := Bodies(header, n, subs[0], mtu);
      var rest := Stream(header, n + |first|, subs[1..], mtu);
      HandledAppend(buffer, first, rest);
      BodiesFromBufferIff(buffer, header, n, subs[0], mtu);
      if Cut(header, n, subs[0], mtu) {
        StreamReassembles(header, n + |first|, subs[1..], mtu);
      } else {
        StreamFromBuffer(buffer, header, n + |first|, subs[1..], mtu);
      }
    }
  }

  lemma {:induction false} GluedIff(buffer: seq<byte>, header: nat -> seq<byte>, n: nat, subs: seq<seq<byte>>, mtu: nat)
    ensures |Glued(buffer, header, n, subs, mtu)| == |subs|
    ensures Glued(buffer, header, n, subs, mtu) == Wanted(header, n, subs, mtu) <==>
            Harmless(buffer, header, n, subs, mtu)
    decreases |subs|
  {
    hide Bodies;
    if subs != [] {
      var next := n + |Bodies(header, n, subs[0], mtu)|;
      var (glued, wanted) := (Glued(buffer, header, n, subs, mtu), Wanted(header, n, subs, mtu));
      GluedIff(buffer, header, next, subs[1..], mtu);
      WantedLength(header, next, subs[1..], mtu);
      SamePrefix(buffer, header(n), subs[0]);
      assert wanted[0] == header(n) + subs[0] && wanted[1..] == Wanted(header, next, subs[1..], mtu);
      if Cut(header, n, subs[0], mtu) {
        assert glued[0] == buffer + subs[0] && glued[1..] == Wanted(header, next, subs[1..], mtu);
        assert glued == [glued[0]] + glued[1..] && wanted == [wanted[0]] + wanted[1..];
      } else {
        assert glued[0] == header(n) + subs[0] && glued[1..] == Glued(buffer, header, next, subs[1..], mtu);
        assert glued == [glued[0]] + glued[1..] && wanted == [wanted[0]] + wanted[1..];
      }
    }
  }

  /** A stream behind a buffer that is not empty comes out as it should if and only if the buffer is harmless. */
  lemma StreamFromBufferIff(buffer: seq<byte>, header: nat -> seq<byte>, n: nat, subs: seq<seq<byte>>, mtu: nat)
    requires buffer != [] && Fits(header, subs, mtu)
    ensures Handled(buffer, Stream(header, n, subs, mtu)).1 == Wanted(header, n, subs, mtu) <==>
            Harmless(buffer, header, n, subs, mtu)
  {
    StreamFromBuffer(buffer, header, n, subs, mtu);
    GluedIff(buffer, header, n, subs, mtu);
  }

  /** A buffer longer than a header is harmless exactly for streams without fragments. */
  lemma {:induction false} LongBufferHarmlessIff(
      buffer: seq<byte>, header: nat -> seq<byte>, n: nat, subs: seq<seq<byte>>, mtu: nat)
    requires SameLengths(header) && |buffer| > |header(0)|
    ensures Harmless(buffer, header, n, subs, mtu) <==> forall d :: d in subs ==> |header(0)| + |d| <= mtu
    decreases |subs|
  {
    hide Bodies;
    if subs != [] {
      assert |header(n)| == |header(0)|;
      assert subs == [subs[0]] + subs[1..];
      LongBufferHarmlessIff(buffer, header, n + |Bodies(header, n, subs[0], mtu)|, subs[1..], mtu);
    }
  }

  /**
   * `reset` leaves the fragment buffer alone.  After a first part of one stream and a reset, the next stream comes
   * out as it should if and only if the first part ended with a whole submessage, or nothing of the next stream
   * travels in fragments.
   */
  lemma StreamAfterResetIff(header: nat -> seq<byte>, before: seq<Body>, earlier: seq<seq<byte>>,
                            subs: seq<seq<byte>>, mtu: nat)
    requires Fits(header, earlier, mtu) && Fits(header, subs, mtu) && SameLengths(header)
    requires before <= Stream(header, 0, earlier, mtu)
    ensures Handled(Handled([], before).0, Stream(header, 0, subs, mtu)).1 == Wanted(header, 0, subs, mtu) <==>
            || AtBoundary(header, 0, earlier, mtu, |before|)
            || forall d :: d in subs ==> |header(0)| + |d| <= mtu
  {
    hide Handled, Stream, Wanted, AtBoundary, Harmless, Fits, SameLengths;
    BufferEmptyIff(header, 0, earlier, mtu, before);
    var buffer := Handled([], before).0;
    if buffer == [] {
      StreamReassembles(header, 0, subs, mtu);
    } else {
      StreamFromBufferIff(buffer, header, 0, subs, mtu);
      LongBufferHarmlessIff(buffer, header, 0, subs, mtu);
    }
  }
}
