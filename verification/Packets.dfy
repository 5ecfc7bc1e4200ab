/** Message packets framed over the FIFO buffer: server/src/packets/CMessageSendPacket.cpp and
    CMessagePacket.cpp. */
module Packets {
  import opened Collections
  import opened FifoBuffers

  newtype byte = x: int | 0 <= x < 256

  const PACKET_TYPE_MESSAGE := 0x11

  // ----- 32-bit words in memory, least significant byte first ----------------------------------

  function Word(n: nat): (w: seq<byte>)
    requires n < 0x1_0000_0000
    ensures |w| == 4
  {
    [(n % 256) as byte, (n / 256 % 256) as byte, (n / 65536 % 256) as byte, (n / 16777216) as byte]
  }

  function Unword(w: seq<byte>): (n: nat)
    requires |w| == 4
    ensures n < 0x1_0000_0000
  {
    w[0] as int + 256 * w[1] as int + 65536 * w[2] as int + 16777216 * w[3] as int
  }

  lemma UnwordWord(n: nat)
    requires n < 0x1_0000_0000
    ensures Unword(Word(n)) == n
  {
    assert n / 65536 == n / 256 / 256 && n / 16777216 == n / 65536 / 256;
  }

  /** The bytes as a signed int. */
  function AsInt(w: seq<byte>): int
    requires |w| == 4
  {
    if Unword(w) < 0x8000_0000 then Unword(w) else Unword(w) - 0x1_0000_0000
  }

  // ----- frames --------------------------------------------------------------------------------

  /** The characters in front of the terminating zero. */
  function CString(s: seq<byte>): seq<byte> {
    if s == [] || s[0] == 0 then [] else [s[0]] + CString(s[1..])
  }

  lemma {:induction false} CStringOfTerminated(m: seq<byte>, rest: seq<byte>)
    requires 0 !in m
    ensures CString(m + [0] + rest) == m
  {
    var s := m + [0] + rest;
    if m == [] {
    } else {
      assert s[1..] == m[1..] + [0] + rest;
      CStringOfTerminated(m[1..], rest);
    }
  }

  /** What a message can be: it has no zero in it and its length is an int. */
  predicate Sendable(m: seq<byte>) {
    0 !in m && |m| + 1 < 0x8000_0000
  }

  function Frame(m: seq<byte>): seq<byte>
    requires Sendable(m)
  {
    Word(PACKET_TYPE_MESSAGE) + Word(|m| + 1) + (m + [0])
  }

  /** The bytes of a frame: the tag 0x11 and the length with the terminating zero, each in four bytes with the
      least significant first, the message, and the zero. */
  lemma FrameBytes(m: seq<byte>)
    requires Sendable(m)
    ensures var f := Frame(m);
            |f| == 8 + |m| + 1 && f[..4] == [0x11, 0, 0, 0] && f[8..] == m + [0] &&
            f[4] as int + 0x100 * f[5] as int + 0x1_0000 * f[6] as int + 0x100_0000 * f[7] as int == |m| + 1
    ensures |m| < 255 ==> Frame(m)[4..8] == [(|m| + 1) as byte, 0, 0, 0]
  {
    var length := Word(|m| + 1);
    UnwordWord(|m| + 1);
    assert Frame(m)[4..8] == length;
    assert Frame(m)[8..] == m + [0];
  }

  function Frames(ms: seq<seq<byte>>): seq<byte>
    requires forall i :: 0 <= i < |ms| ==> Sendable(ms[i])
  {
    if ms == [] then [] else Frame(ms[0]) + Frames(ms[1..])
  }

  // ----- writing -------------------------------------------------------------------------------

  /** What one write() takes when there is room for so many bytes. */
  function Cut(s: seq<byte>, free: nat): seq<byte> {
    s[..Min(|s|, free)]
  }

  lemma CutConcat(a: seq<byte>, b: seq<byte>, free: nat)
    ensures Cut(a + b, free) == Cut(a, free) + Cut(b, free - |Cut(a, free)|)
  {
  }

  lemma WholeIffRoom(before: seq<byte>, s: seq<byte>, free: nat)
    ensures before + Cut(s, free) == before + s <==> |s| <= free
  {
    if |s| > free {
      assert |before + Cut(s, free)| < |before + s|;
    }
  }

  lemma JoinCuts(before: seq<byte>, a: seq<byte>, b: seq<byte>, ab: seq<byte>)
    requires ab == a + b
    ensures before + a + b == before + ab && |ab| == |a| + |b|
  {
  }

  /** How many bytes the buffer takes: none at end of file or in the error state. */
  ghost function Free(buffer: FifoBuffer<byte>): nat
    requires buffer.InMemory()
    reads buffer
  {
    if buffer.error || buffer.eof then 0 else buffer.size - buffer.used
  }

  class MessageSendPacket {
    /** m_szMessage with its terminating zero. */
    const message: seq<byte>
    ghost const text: seq<byte>

    ghost predicate Valid() {
      Sendable(text) && message == text + [0]
    }

    /** The constructor takes a C string, whatever lies behind its end. */
    constructor (szMessage: seq<byte>)
      requires |CString(szMessage)| + 1 < 0x8000_0000
      ensures Valid() && text == CString(szMessage)
    {
      CStringHasNoZero(szMessage);
      message, text := CString(szMessage) + [0], CString(szMessage);
    }

    /** Three writes whose results are not looked at: a frame that does not fit is cut off, and the result is
        true nevertheless. */
    method Write(buffer: FifoBuffer<byte>) returns (ok: bool)
      requires Valid() && buffer.Valid()
      modifies buffer, buffer.data
      ensures ok && buffer.Valid() && unchanged(buffer`error, buffer`eof, buffer`size, buffer`data)
      ensures buffer.Contents() == old(buffer.Contents()) + Cut(Frame(text), old(Free(buffer)))
      ensures Free(buffer) == old(Free(buffer)) - |Cut(Frame(text), old(Free(buffer)))|
      ensures buffer.Contents() == old(buffer.Contents()) + Frame(text) <==> |Frame(text)| <= old(Free(buffer))
    {
      hide Word, Cut, Free;
      ghost var before, free := buffer.Contents(), Free(buffer);
      var tag, length := Word(PACKET_TYPE_MESSAGE), Word(|message|);
      CutConcat(tag, length, free);
      CutConcat(tag + length, message, free);
      AppendCut(buffer, tag);
      AppendCut(buffer, length);
      JoinCuts(before, Cut(tag, free), Cut(length, free - |Cut(tag, free)|), Cut(tag + length, free));
      AppendCut(buffer, message);
      JoinCuts(before, Cut(tag + length, free), Cut(message, free - |Cut(tag + length, free)|), Cut(tag + length + message, free));
      assert tag + length + message == Frame(text);
      WholeIffRoom(before, Frame(text), free);
      ok := true;
    }
  }

  /** A write whose result is not looked at. */
  method AppendCut(buffer: FifoBuffer<byte>, source: seq<byte>)
    requires buffer.Valid()
    modifies buffer, buffer.data
    ensures buffer.Valid() && unchanged(buffer`error, buffer`eof, buffer`size, buffer`data)
    ensures buffer.Contents() == old(buffer.Contents()) + Cut(source, old(Free(buffer)))
    ensures Free(buffer) == old(Free(buffer)) - |Cut(source, old(Free(buffer)))|
  {
    var n := buffer.Write(source);
  }

  lemma {:induction false} CStringHasNoZero(s: seq<byte>)
    ensures 0 !in CString(s)
  {
    if s == [] || s[0] == 0 {
    } else {
      CStringHasNoZero(s[1..]);
    }
  }

  // ----- reading -------------------------------------------------------------------------------

  /** BadLength is the exception of new char[] for a negative length, which the packet does not catch. */
  datatype ReadResult = Done(ok: bool) | BadLength

  /** m_szMessage: null, an array, or an array that has been deleted and not replaced. */
  datatype Message = Null | Text(bytes: seq<byte>) | Deleted

  class MessagePacket {
    var message: Message

    constructor ()
      ensures message == Null
    {
      message := Null;
    }

    /** stack is what iLength holds before it is read and memory what a new array holds: both show
        only when the buffer runs short. The old message is deleted before the length proves bad. */
    method Read(buffer: FifoBuffer<byte>, stack: seq<byte>, memory: nat -> byte) returns (r: ReadResult)
      requires buffer.Valid() && |stack| == 4 && message != Deleted
      modifies this, buffer
      ensures buffer.Valid() && unchanged(buffer`error, buffer`data)
      ensures var (result, value, rest) := ReadSpec(old(buffer.Contents()), stack, memory);
              r == result && buffer.Contents() == rest &&
              message == if result.Done? then Text(value) else if old(message).Text? then Deleted else Null
    {
      hide AsInt, Memory, Received, Dropped;
      ghost var c := buffer.Contents();
      var header := ReadRaw(buffer, 4);
      BodyReceived(c, header, stack, 4);
      var iLength := AsInt(header + stack[|header|..]);
      if message.Text? {
        message := Deleted;
      }
      if iLength < 0 {
        return BadLength;
      }
      ReadBody(buffer, iLength, memory);
      r := Done(true);
    }

    method ReadBody(buffer: FifoBuffer<byte>, length: nat, memory: nat -> byte)
      requires buffer.Valid()
      modifies this, buffer
      ensures buffer.Valid() && unchanged(buffer`error, buffer`data)
      ensures message == Text(Received(old(buffer.Contents()), Memory(memory, length), length))
      ensures buffer.Contents() == Dropped(old(buffer.Contents()), length)
    {
      hide Memory, Received, Dropped;
      ghost var c := buffer.Contents();
      var m_szMessage := Memory(memory, length);
      var body := ReadRaw(buffer, length);
      BodyReceived(c, body, m_szMessage, length);
      message := Text(body + m_szMessage[|body|..]);
    }
  }

  /** read() in either state: in the error state the buffer is empty. */
  method ReadRaw(buffer: FifoBuffer<byte>, length: nat) returns (copied: seq<byte>)
    requires buffer.Valid()
    modifies buffer
    ensures buffer.Valid() && unchanged(buffer`error, buffer`data)
    ensures copied == old(buffer.Contents())[..Min(length, |old(buffer.Contents())|)]
    ensures buffer.Contents() == old(buffer.Contents())[|copied|..]
  {
    copied := buffer.Read(length);
  }

  /** What read() delivers and leaves. */
  lemma BodyReceived(c: seq<byte>, body: seq<byte>, prior: seq<byte>, n: nat)
    requires |prior| == n && body == c[..Min(n, |c|)]
    ensures body + prior[|body|..] == Received(c, prior, n) && c[|body|..] == Dropped(c, n)
  {
  }

  /** The outcome, the message and the rest of the buffer. */
  function ReadSpec(c: seq<byte>, stack: seq<byte>, memory: nat -> byte): (ReadResult, seq<byte>, seq<byte>)
    requires |stack| == 4
  {
    var length, rest := AsInt(Received(c, stack, 4)), Dropped(c, 4);
    if length < 0 then (BadLength, [], rest)
    else (Done(true), Received(rest, Memory(memory, length), length), Dropped(rest, length))
  }

  function Dropped(c: seq<byte>, n: nat): seq<byte> {
    c[Min(n, |c|)..]
  }

  function Memory(memory: nat -> byte, n: nat): (m: seq<byte>)
    ensures |m| == n
  {
    seq(n, i requires 0 <= i < n => memory(i))
  }

  /** The first n bytes, or all there are and then the old contents of the destination. */
  function Received(c: seq<byte>, prior: seq<byte>, n: nat): (r: seq<byte>)
    requires |prior| == n
    ensures |r| == n
  {
    c[..Min(n, |c|)] + prior[Min(n, |c|)..]
  }

  /** Byte for byte: what the buffer has, and behind that what the destination held before. */
  lemma ReceivedAt(c: seq<byte>, prior: seq<byte>, n: nat, i: nat)
    requires |prior| == n && i < n
    ensures Received(c, prior, n)[i] == if i < |c| then c[i] else prior[i]
    ensures c == Received(c, prior, n)[..Min(n, |c|)] + Dropped(c, n)
  {
  }

  // ----- the round trip ------------------------------------------------------------------------

  lemma ReceivedWhole(a: seq<byte>, b: seq<byte>, prior: seq<byte>, n: nat)
    requires |prior| == n == |a|
    ensures Received(a + b, prior, n) == a && Dropped(a + b, n) == b
  {
  }

  /** A frame at the head of the buffer is read as its message, and nothing behind it is touched. */
  lemma FrameIsReceived(m: seq<byte>, rest: seq<byte>, stack: seq<byte>, memory: nat -> byte)
    requires Sendable(m) && |stack| == 4
    ensures var c := Frame(m) + rest;
            Received(c, stack, 4) == Word(PACKET_TYPE_MESSAGE) &&
            ReadSpec(Dropped(c, 4), stack, memory) == (Done(true), m + [0], rest)
    ensures CString(m + [0]) == m
  {
    hide Word, AsInt, Received, Dropped, Memory;
    var tag, length, body := Word(PACKET_TYPE_MESSAGE), Word(|m| + 1), m + [0];
    assert Frame(m) + rest == tag + (length + (body + rest));
    ReceivedWhole(tag, length + (body + rest), stack, 4);
    ReceivedWhole(length, body + rest, stack, 4);
    LengthIsRead(|m| + 1);
    ReceivedWhole(body, rest, Memory(memory, |m| + 1), |m| + 1);
    CStringOfTerminated(m, []);
    assert m + [0] + [] == m + [0];
  }

  lemma LengthIsRead(n: nat)
    requires n < 0x8000_0000
    ensures AsInt(Word(n)) == n
  {
    UnwordWord(n);
  }

  /** Taking the type tag and calling Read; None is a tag that is not that of a message or a Read that
      fails. */
  ghost function ReadOne(c: seq<byte>, stack: seq<byte>, memory: nat -> byte): (Option<seq<byte>>, seq<byte>)
    requires |stack| == 4
  {
    if Received(c, stack, 4) != Word(PACKET_TYPE_MESSAGE) then (None, Dropped(c, 4))
    else
      var (result, value, rest) := ReadSpec(Dropped(c, 4), stack, memory);
      (if result == Done(true) then Some(CString(value)) else None, rest)
  }

  function Prepend<T>(x: T, more: Option<seq<T>>): Option<seq<T>> {
    if more.None? then None else Some([x] + more.value)
  }

  /** Doing so as often as there are messages, or until one is None. */
  ghost function ReadAll(c: seq<byte>, n: nat, stack: seq<byte>, memory: nat -> byte)
    : (Option<seq<seq<byte>>>, seq<byte>)
    requires |stack| == 4
    decreases n
  {
    if n == 0 then (Some([]), c)
    else
      var (first, rest) := ReadOne(c, stack, memory);
      if first.None? then (None, rest)
      else
        var (more, end) := ReadAll(rest, n - 1, stack, memory);
        (Prepend(first.value, more), end)
  }

  /** Any list of messages whose frames stand in the buffer is read back in order and empties it, every tag
      is that of a message and every Read succeeds, whatever the uninitialised memory holds. */
  lemma {:induction false} FramesAreReceived(ms: seq<seq<byte>>, stack: seq<byte>, memory: nat -> byte)
    requires |stack| == 4 && forall i :: 0 <= i < |ms| ==> Sendable(ms[i])
    ensures ReadAll(Frames(ms), |ms|, stack, memory) == (Some(ms), [])
  {
    hide ReadSpec, Frame, Dropped, Word, Received;
    if ms == [] {
    } else {
      FrameIsReceived(ms[0], Frames(ms[1..]), stack, memory);
      FramesAreReceived(ms[1..], stack, memory);
      assert [ms[0]] + ms[1..] == ms;
    }
  }

  /** What writing one packet after the other into an empty buffer of the given size leaves in it. */
  ghost function Written(ms: seq<seq<byte>>, size: nat): (c: seq<byte>)
    requires forall i :: 0 <= i < |ms| ==> Sendable(ms[i])
    ensures |c| <= size
  {
    if ms == [] then []
    else
      var before := Written(ms[..|ms| - 1], size);
      before + Cut(Frame(ms[|ms| - 1]), size - |before|)
  }

  lemma {:induction false} FramesConcat(a: seq<seq<byte>>, m: seq<byte>)
    requires (forall i :: 0 <= i < |a| ==> Sendable(a[i])) && Sendable(m)
    ensures Frames(a + [m]) == Frames(a) + Frame(m)
  {
    hide Frame, Sendable;
    if a == [] {
      assert a + [m] == [m];
    } else {
      var c := a + [m];
      assert c[0] == a[0] && c[1..] == a[1..] + [m];
      FramesConcat(a[1..], m);
    }
  }

  /** The buffer holds the frames in order, cut off where it is full. */
  lemma {:induction false} WrittenIsCutFrames(ms: seq<seq<byte>>, size: nat)
    requires forall i :: 0 <= i < |ms| ==> Sendable(ms[i])
    ensures Written(ms, size) == Cut(Frames(ms), size)
  {
    hide Frame, Sendable;
    if ms == [] {
    } else {
      var most, m := ms[..|ms| - 1], ms[|ms| - 1];
      WrittenIsCutFrames(most, size);
      assert ms == most + [m];
      FramesConcat(most, m);
      CutConcat(Frames(most), Frame(m), size);
    }
  }

  /** Messages whose frames fit an empty buffer come out of it again, the same and in the same order, and
      leave it empty. */
  lemma MessagesRoundTrip(ms: seq<seq<byte>>, size: nat, stack: seq<byte>, memory: nat -> byte)
    requires |stack| == 4 && (forall i :: 0 <= i < |ms| ==> Sendable(ms[i])) && |Frames(ms)| <= size
    ensures ReadAll(Written(ms, size), |ms|, stack, memory) == (Some(ms), [])
  {
    hide ReadAll, Frames, Written, Sendable;
    WrittenIsCutFrames(ms, size);
    assert Cut(Frames(ms), size) == Frames(ms);
    FramesAreReceived(ms, stack, memory);
  }

  // ----- the round trip through one buffer -----------------------------------------------------

  lemma NothingWritten(ms: seq<seq<byte>>, size: nat)
    ensures Written(ms[..0], size) == []
  {
  }

  lemma WrittenNext(before: seq<byte>, ms: seq<seq<byte>>, i: nat, size: nat)
    requires i < |ms| && forall k :: 0 <= k < |ms| ==> Sendable(ms[k])
    ensures var sent, next := Written(ms[..i], size), Written(ms[..i + 1], size);
            var more := Cut(Frame(ms[i]), size - |sent|);
            before + sent + more == before + next && |next| == |sent| + |more|
  {
    hide Frame, Sendable, Cut;
    assert ms[..i + 1][..i] == ms[..i];
    var sent := Written(ms[..i], size);
    var more := Cut(Frame(ms[i]), size - |sent|);
    assert before + (sent + more) == before + sent + more;
  }

  /** Writes one packet after the other. */
  method SendAll(buffer: FifoBuffer<byte>, ms: seq<seq<byte>>)
    requires buffer.Valid() && forall i :: 0 <= i < |ms| ==> Sendable(ms[i])
    modifies buffer, buffer.data
    ensures buffer.Valid() && unchanged(buffer`data)
    ensures buffer.Contents() == old(buffer.Contents()) + Cut(Frames(ms), old(Free(buffer)))
  {
    hide Frame, Sendable, Cut, Free, Written, Frames;
    ghost var before, free := buffer.Contents(), Free(buffer);
    var i := 0;
    NothingWritten(ms, free);
    while i < |ms|
      invariant i <= |ms| && buffer.Valid() && buffer.data == old(buffer.data)
      invariant buffer.Contents() == before + Written(ms[..i], free)
      invariant Free(buffer) == free - |Written(ms[..i], free)|
    {
      WrittenNext(before, ms, i, free);
      SendOne(buffer, ms[i]);
      i := i + 1;
    }
    assert ms[..i] == ms;
    WrittenIsCutFrames(ms, free);
  }

  method SendOne(buffer: FifoBuffer<byte>, m: seq<byte>)
    requires buffer.Valid() && Sendable(m)
    modifies buffer, buffer.data
    ensures buffer.Valid() && unchanged(buffer`data)
    ensures buffer.Contents() == old(buffer.Contents()) + Cut(Frame(m), old(Free(buffer)))
    ensures Free(buffer) == old(Free(buffer)) - |Cut(Frame(m), old(Free(buffer)))|
  {
    hide Frame, Cut, Free;
    CStringOfTerminated(m, []);
    assert m + [0] + [] == m + [0];
    var packet := new MessageSendPacket(m + [0]);
    var ok := packet.Write(buffer);
  }

  ghost predicate Holds(buffer: FifoBuffer<byte>, c: seq<byte>)
    reads buffer, buffer.data
  {
    buffer.Valid() && buffer.Contents() == c
  }

  /** Takes the type tag and reads one packet; c is what the buffer holds. */
  method ReceiveOne(buffer: FifoBuffer<byte>, stack: seq<byte>, memory: nat -> byte, ghost c: seq<byte>)
      returns (m: Option<seq<byte>>)
    requires Holds(buffer, c) && |stack| == 4
    modifies buffer
    ensures unchanged(buffer`data)
    ensures var (first, rest) := ReadOne(c, stack, memory); m == first && Holds(buffer, rest)
  {
    hide ReadSpec, Received, Dropped, Word;
    var header := ReadRaw(buffer, 4);
    BodyReceived(c, header, stack, 4);
    if header + stack[|header|..] != Word(PACKET_TYPE_MESSAGE) {
      return None;
    }
    var packet := new MessagePacket();
    var result := packet.Read(buffer, stack, memory);
    m := if result != Done(true) then None else Some(CString(packet.message.bytes));
  }

  /** Does so as often as there are messages. */
  method ReceiveAll(buffer: FifoBuffer<byte>, n: nat, stack: seq<byte>, memory: nat -> byte, ghost c: seq<byte>)
      returns (ms: Option<seq<seq<byte>>>)
    requires Holds(buffer, c) && |stack| == 4
    modifies buffer
    ensures unchanged(buffer`data)
    ensures var (all, rest) := ReadAll(c, n, stack, memory); ms == all && Holds(buffer, rest)
    decreases n
  {
    hide ReadOne, Prepend, Holds;
    if n == 0 {
      return Some([]);
    }
    var first := ReceiveOne(buffer, stack, memory, c);
    if first.None? {
      return None;
    }
    var more := ReceiveAll(buffer, n - 1, stack, memory, ReadOne(c, stack, memory).1);
    ms := Prepend(first.value, more);
  }

  /** Messages whose frames fit are sent and received through one buffer without a difference. */
  method SendAndReceive(ms: seq<seq<byte>>, size: nat, stack: seq<byte>, memory: nat -> byte)
      returns (received: Option<seq<seq<byte>>>, left: nat)
    requires |stack| == 4 && forall i :: 0 <= i < |ms| ==> Sendable(ms[i])
    ensures |Frames(ms)| <= size ==> received == Some(ms) && left == 0
  {
    hide ReadAll, Frames, Sendable, Cut;
    var buffer := new FifoBuffer<byte>(size, false);
    SendAll(buffer, ms);
    CutOfAll(Frames(ms), size);
    assert |Frames(ms)| <= size ==> buffer.Contents() == Frames(ms);
    FramesAreReceived(ms, stack, memory);
    received := ReceiveAll(buffer, |ms|, stack, memory, buffer.Contents());
    left := buffer.used;
  }

  lemma CutOfAll(s: seq<byte>, free: nat)
    ensures |s| <= free ==> [] + Cut(s, free) == s
  {
  }

  /** A frame that is cut off is reported as sent. */
  method CutFrameIsReportedSent() returns (ok: bool, used: nat)
    ensures ok && used == 5 && |Frame([])| == 9
  {
    var buffer := new FifoBuffer<byte>(5, false);
    var packet := new MessageSendPacket([0]);
    ok := packet.Write(buffer);
    used := buffer.used;
  }

  /** A packet that has read a message loses it when the next length is negative. */
  method NegativeLengthDeletesMessage(stack: seq<byte>, memory: nat -> byte)
      returns (first: ReadResult, second: ReadResult, message: Message)
    requires |stack| == 4
    ensures first == Done(true) && second == BadLength && message == Deleted
  {
    var bytes: seq<byte> := [0, 0, 0, 0, 255, 255, 255, 255];
    var buffer := new FifoBuffer.FromData(bytes, false);
    assert Received(bytes, stack, 4) == [0, 0, 0, 0] && Dropped(bytes, 4) == [255, 255, 255, 255];
    var packet := new MessagePacket();
    first := packet.Read(buffer, stack, memory);
    assert Received(bytes[4..], stack, 4) == [255, 255, 255, 255];
    second := packet.Read(buffer, stack, memory);
    message := packet.message;
  }
}
