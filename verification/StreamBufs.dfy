/** The bidirectional stream buffer: shared/include/Poco/BufferedBidirectionalStreamBuf.h. */
module StreamBufs {
  import opened Collections

  // ----- the putback area on values ------------------------------------------------------------

  /** How many consumed characters a refill keeps. */
  function Putback(eback: nat, gptr: nat): (p: nat)
    requires eback <= gptr
    ensures p <= 4 && p <= gptr - eback
  {
    Min(4, gptr - eback)
  }

  /** char_traits::move in front of the refill: the last consumed characters go before position 4. */
  function Moved<T>(buffer: seq<T>, eback: nat, gptr: nat): (r: seq<T>)
    requires eback <= gptr && 4 <= gptr <= |buffer|
    ensures |r| == |buffer|
  {
    var p := Putback(eback, gptr);
    seq(|buffer|, i requires 0 <= i < |buffer| => if 4 - p <= i < 4 then buffer[i + gptr - 4] else buffer[i])
  }

  /** The move leaves the characters that can still be put back in place. */
  ghost predicate KeepsPutback<T>(buffer: seq<T>, eback: nat, gptr: nat)
    requires eback <= gptr && 4 <= gptr <= |buffer|
  {
    forall i :: gptr - Putback(eback, gptr) <= i < gptr ==> Moved(buffer, eback, gptr)[i] == buffer[i]
  }

  /** When the device has nothing, the pointers stay but the move has happened. It leaves the putback
      characters in place, whatever they are, exactly when source and destination coincide or do not
      overlap. */
  lemma FailedRefillKeepsPutbackIff(size: nat, eback: nat, gptr: nat)
    requires eback <= 4 <= gptr <= size
    ensures (forall buffer: seq<int> :: |buffer| == size ==> KeepsPutback(buffer, eback, gptr))
        <==> (gptr == 4 || eback == 4 || gptr >= 8)
  {
    if !(gptr == 4 || eback == 4 || gptr >= 8) {
      var buffer := seq(size, i requires 0 <= i < size => i);
      assert Moved(buffer, eback, gptr)[3] == gptr - 1 && buffer[3] == 3;
      assert !KeepsPutback(buffer, eback, gptr);
    }
  }

  /** After one failed refill the next successful one can put wrong characters before the new ones. */
  lemma SecondRefillSeesTheDamage()
    ensures var buffer := [10, 11, 12, 13, 14];
            var once := Moved(buffer, 0, 5);
            var twice := Moved(once, 0, 5);
            buffer[1..5] == [11, 12, 13, 14] && twice[..4] == [12, 13, 14, 14]
  {
    var buffer := [10, 11, 12, 13, 14];
    assert Moved(buffer, 0, 5) == [11, 12, 13, 14, 14];
    assert Moved([11, 12, 13, 14, 14], 0, 5) == [12, 13, 14, 14, 14];
  }

  // ----- flushing on values --------------------------------------------------------------------

  /** Device output and pending output after flushBuffer, when the device took so many characters. */
  function Flushed<T>(written: seq<T>, pending: seq<T>, taken: nat): (seq<T>, seq<T>)
    requires taken <= |pending|
  {
    (written + pending[..taken], if taken == |pending| then [] else pending)
  }

  /** A flush conserves the output exactly when the device takes all or nothing; what a device took of a
      part is sent again by the next flush. */
  lemma FlushConservesIff<T>(written: seq<T>, pending: seq<T>, taken: nat)
    requires taken <= |pending|
    ensures var (w, p) := Flushed(written, pending, taken);
            w + p == written + pending <==> (taken == 0 || taken == |pending|)
  {
    var (w, p) := Flushed(written, pending, taken);
    if taken == |pending| || taken == 0 {
      assert w + p == written + pending;
    } else {
      assert |w + p| == |written + pending| + taken;
    }
  }

  // ----- reading on values ---------------------------------------------------------------------

  /** What was consumed, followed by the get area, is what the device has delivered. */
  ghost predicate Delivers<T>(consumed: seq<T>, received: seq<T>, buffer: seq<T>, gptr: nat, egptr: nat)
    requires gptr <= egptr <= |buffer|
  {
    |received| == |consumed| + egptr - gptr &&
    (forall i :: 0 <= i < |consumed| ==> consumed[i] == received[i]) &&
    (forall i :: gptr <= i < egptr ==> buffer[i] == received[|consumed| + i - gptr])
  }

  /** The n cells before a position hold the last n characters consumed. */
  ghost predicate HoldsLast<T>(buffer: seq<T>, at: nat, n: nat, consumed: seq<T>)
    requires at <= |buffer|
  {
    n <= at && n <= |consumed| && forall i :: at - n <= i < at ==> buffer[i] == consumed[|consumed| - at + i]
  }

  /** The buffer after a refill that follows a move. */
  function Refilled<T>(buffer: seq<T>, chunk: seq<T>): (r: seq<T>)
    requires 4 + |chunk| <= |buffer|
    ensures |r| == |buffer|
  {
    seq(|buffer|, i requires 0 <= i < |buffer| => if 4 <= i < 4 + |chunk| then chunk[i - 4] else buffer[i])
  }

  /** The buffer after a refill that the device has answered with the given characters, or with none. */
  function AfterRefill<T>(buffer: seq<T>, eback: nat, gptr: nat, chunk: seq<T>): (r: seq<T>)
    requires eback <= gptr && 4 <= gptr <= |buffer| && 4 + |chunk| <= |buffer|
    ensures |r| == |buffer|
  {
    if chunk == [] then Moved(buffer, eback, gptr) else Refilled(Moved(buffer, eback, gptr), chunk)
  }

  lemma RefilledHead<T>(buffer: seq<T>, eback: nat, gptr: nat, chunk: seq<T>)
    requires eback <= gptr && 4 <= gptr <= |buffer| && 4 + |chunk| <= |buffer| && chunk != []
    ensures AfterRefill(buffer, eback, gptr, chunk)[4] == chunk[0]
  {
  }

  lemma RefillDelivers<T>(
    consumed: seq<T>, received: seq<T>, buffer: seq<T>, eback: nat, gptr: nat, chunk: seq<T>)
    requires eback <= 4 <= gptr <= |buffer| && 4 + |chunk| <= |buffer|
    requires Delivers(consumed, received, buffer, gptr, gptr)
    ensures var r := Refilled(Moved(buffer, eback, gptr), chunk);
            Delivers(consumed, received + chunk, r, 4, 4 + |chunk|) &&
            (HoldsLast(buffer, gptr, Putback(eback, gptr), consumed) ==>
              HoldsLast(r, 4, Putback(eback, gptr), consumed))
  {
    var p := Putback(eback, gptr);
    var r := Refilled(Moved(buffer, eback, gptr), chunk);
    assert forall i :: 4 - p <= i < 4 ==> r[i] == buffer[i + gptr - 4];
  }

  lemma EmptyDelivers<T>(consumed: seq<T>, received: seq<T>, a: seq<T>, b: seq<T>, gptr: nat)
    requires gptr <= |a| && gptr <= |b| && Delivers(consumed, received, a, gptr, gptr)
    ensures Delivers(consumed, received, b, gptr, gptr)
  {
  }

  lemma MoveKeepsLast<T>(consumed: seq<T>, buffer: seq<T>, eback: nat, gptr: nat)
    requires eback <= 4 <= gptr <= |buffer| && (gptr == 4 || eback == 4 || gptr >= 8)
    requires HoldsLast(buffer, gptr, Putback(eback, gptr), consumed)
    ensures HoldsLast(Moved(buffer, eback, gptr), gptr, Putback(eback, gptr), consumed)
  {
  }

  lemma ConsumeOne<T>(consumed: seq<T>, received: seq<T>, buffer: seq<T>, eback: nat, gptr: nat, egptr: nat)
    requires eback <= gptr < egptr <= |buffer| && Delivers(consumed, received, buffer, gptr, egptr)
    ensures Delivers(consumed + [buffer[gptr]], received, buffer, gptr + 1, egptr)
    ensures HoldsLast(buffer, gptr, Putback(eback, gptr), consumed) ==>
              HoldsLast(buffer, gptr + 1, Putback(eback, gptr + 1), consumed + [buffer[gptr]])
  {
  }

  // ----- the buffer ----------------------------------------------------------------------------

  class StreamBuf<T(0)> {
    const bufsize: nat
    const readBuffer: array<T>
    const writeBuffer: array<T>
    const input: bool
    const output: bool
    var eback: nat
    var gptr: nat
    var egptr: nat
    var pptr: nat
    // the device and the users of the stream
    ghost var received: seq<T>
    ghost var consumed: seq<T>
    var written: seq<T>
    ghost var put: seq<T>

    ghost predicate Valid()
      reads this, readBuffer, writeBuffer
    {
      bufsize >= 4 && readBuffer.Length == writeBuffer.Length == bufsize && readBuffer != writeBuffer &&
      eback <= 4 <= gptr <= egptr <= bufsize && pptr <= bufsize &&
      Delivers(consumed, received, readBuffer[..], gptr, egptr)
    }

    /** What can be put back, up to four characters, is what was consumed last. */
    ghost predicate PutbackIntact()
      reads this, readBuffer
    {
      eback <= gptr <= readBuffer.Length && HoldsLast(readBuffer[..], gptr, Putback(eback, gptr), consumed)
    }

    ghost predicate Conserved()
      reads this, writeBuffer
    {
      pptr <= writeBuffer.Length && written + writeBuffer[..pptr] == put
    }

    constructor (bufferSize: nat, input: bool, output: bool)
      requires bufferSize >= 4
      ensures Valid() && PutbackIntact() && Conserved() && bufsize == bufferSize
      ensures this.input == input && this.output == output && received == consumed == [] && put == []
      ensures eback == gptr == egptr == 4 && pptr == 0
      ensures fresh(readBuffer) && fresh(writeBuffer)
    {
      bufsize, this.input, this.output := bufferSize, input, output;
      readBuffer := new T[bufferSize];
      writeBuffer := new T[bufferSize];
      eback, gptr, egptr, pptr := 4, 4, 4, 0;
      received, consumed, written, put := [], [], [], [];
    }

    /** underflow(): chunk is what readFromDevice delivers, empty for end of file or an error. */
    method Underflow(chunk: seq<T>) returns (c: Option<T>)
      requires Valid() && |chunk| <= bufsize - 4
      modifies this`eback, this`gptr, this`egptr, this`received, readBuffer
      ensures Valid()
      ensures c == if input && gptr < egptr then Some(readBuffer[gptr]) else None
      ensures input && old(gptr) == old(egptr) ==> (gptr < egptr <==> chunk != [])
      ensures !input || old(gptr) < old(egptr) || chunk == [] ==> unchanged(`eback, `gptr, `egptr)
      ensures received == old(received) + if input && old(gptr) == old(egptr) then chunk else []
      ensures input && old(gptr) == old(egptr) && chunk != [] ==>
        gptr == 4 && eback == 4 - Putback(old(eback), old(gptr)) && egptr == 4 + |chunk|
      ensures readBuffer[..] ==
        if !input || old(gptr) < old(egptr) then old(readBuffer[..])
        else AfterRefill(old(readBuffer[..]), old(eback), old(gptr), chunk)
      ensures old(PutbackIntact()) &&
              (!input || chunk != [] || old(gptr) < old(egptr) || old(gptr == 4 || eback == 4 || gptr >= 8)) ==>
              PutbackIntact()
    {
      hide Delivers, HoldsLast, Moved, Refilled;
      if !input {
        return None;
      }
      if gptr < egptr {
        return Some(readBuffer[gptr]);
      }
      ghost var before := readBuffer[..];
      var putback := MovePutback();
      if |chunk| == 0 {
        EmptyDelivers(consumed, received, before, readBuffer[..], gptr);
        if PutbackWas(before) && (gptr == 4 || eback == 4 || gptr >= 8) {
          MoveKeepsLast(consumed, before, eback, gptr);
        }
        return None;
      }
      RefillDelivers(consumed, received, before, eback, gptr, chunk);
      ReadFromDevice(chunk);
      eback, gptr, egptr := 4 - putback, 4, 4 + |chunk|;
      received := received + chunk;
      c := Some(readBuffer[gptr]);
    }

    /** char_traits::move of the characters that can still be put back. */
    method MovePutback() returns (putback: nat)
      requires eback <= 4 <= gptr <= readBuffer.Length
      modifies readBuffer
      ensures putback == Putback(eback, gptr) && readBuffer[..] == Moved(old(readBuffer[..]), eback, gptr)
    {
      putback := if gptr - eback > 4 then 4 else gptr - eback;
      forall i | 0 <= i < putback {
        readBuffer[4 - putback + i] := readBuffer[gptr - putback + i];
      }
    }

    /** readFromDevice() puts what it delivers behind the putback area. */
    method ReadFromDevice(chunk: seq<T>)
      requires 4 + |chunk| <= readBuffer.Length
      modifies readBuffer
      ensures readBuffer[..] == Refilled(old(readBuffer[..]), chunk)
    {
      forall i | 0 <= i < |chunk| {
        readBuffer[4 + i] := chunk[i];
      }
    }

    ghost predicate PutbackWas(before: seq<T>)
      requires eback <= gptr <= |before|
      reads this
    {
      HoldsLast(before, gptr, Putback(eback, gptr), consumed)
    }

    /** sbumpc(): consumes one character, refilling when there is none. */
    method Bump(chunk: seq<T>) returns (c: Option<T>)
      requires Valid() && |chunk| <= bufsize - 4
      modifies this`eback, this`gptr, this`egptr, this`received, this`consumed, readBuffer
      ensures Valid() && (c.None? <==> !input || (old(gptr) == old(egptr) && chunk == []))
      ensures c.Some? ==> c.value == if old(gptr) < old(egptr) then old(readBuffer[gptr]) else chunk[0]
      ensures consumed == old(consumed) + if c.Some? then [c.value] else []
      ensures !input || old(gptr) < old(egptr) ==> unchanged(`eback, `egptr) && readBuffer[..] == old(readBuffer[..])
      ensures input && old(gptr) == old(egptr) ==>
        readBuffer[..] == AfterRefill(old(readBuffer[..]), old(eback), old(gptr), chunk)
      ensures input && old(gptr) == old(egptr) && chunk == [] ==> unchanged(`eback, `egptr)
      ensures input && old(gptr) == old(egptr) && chunk != [] ==>
        eback == 4 - Putback(old(eback), old(gptr)) && egptr == 4 + |chunk|
      ensures gptr == if c.None? then old(gptr) else if old(gptr) < old(egptr) then old(gptr) + 1 else 5
      ensures old(PutbackIntact()) && c.Some? ==> PutbackIntact()
    {
      hide Delivers, HoldsLast, AfterRefill;
      if input && gptr == egptr && chunk != [] {
        RefilledHead(readBuffer[..], eback, gptr, chunk);
      }
      c := Underflow(chunk);
      if c.Some? {
        ConsumeOne(consumed, received, readBuffer[..], eback, gptr, egptr);
        gptr := gptr + 1;
        consumed := consumed + [c.value];
      }
    }

    /** flushBuffer(): taken is how many characters writeToDevice has taken and returned. */
    method FlushBuffer(taken: nat) returns (n: int)
      requires Valid() && taken <= pptr
      modifies this`pptr, this`written
      ensures Valid() && n == if taken == old(pptr) then taken else -1
      ensures (written, writeBuffer[..pptr]) == Flushed(old(written), old(writeBuffer[..pptr]), taken)
      ensures old(Conserved()) ==> (Conserved() <==> taken == 0 || taken == old(pptr))
    {
      n := pptr;
      FlushConservesIff(written, writeBuffer[..pptr], taken);
      written := written + writeBuffer[..pptr][..taken];
      if taken == n {
        pptr := pptr - n;
      } else {
        n := -1;
      }
    }

    /** overflow(): flushes and then stores the character, which it returns; None is eof, both as the
        character and as the result. A character refused is not put. */
    method Overflow(c: Option<T>, taken: nat) returns (r: Option<T>)
      requires Valid() && taken <= pptr
      modifies this`pptr, this`written, this`put, writeBuffer
      ensures Valid() && r == if output && taken == old(pptr) then c else None
      ensures put == old(put) + if r.Some? then [r.value] else []
      ensures !output ==> written == old(written) && writeBuffer[..pptr] == old(writeBuffer[..pptr])
      ensures output ==>
        var (w, p) := Flushed(old(written), old(writeBuffer[..pptr]), taken);
        written == w && writeBuffer[..pptr] == p + if r.Some? then [r.value] else []
      ensures old(Conserved()) && (taken == 0 || taken == old(pptr)) ==> Conserved()
    {
      if !output {
        return None;
      }
      var n := FlushBuffer(taken);
      if n == -1 {
        return None;
      }
      if c.Some? {
        StoreChar(c.value);
      }
      r := c;
    }

    method StoreChar(c: T)
      requires Valid() && pptr < bufsize
      modifies this`pptr, this`put, writeBuffer
      ensures Valid() && put == old(put) + [c] && pptr == old(pptr) + 1
      ensures writeBuffer[..pptr] == old(writeBuffer[..pptr]) + [c]
      ensures old(Conserved()) ==> Conserved()
    {
      ghost var before := writeBuffer[..pptr];
      writeBuffer[pptr] := c;
      pptr := pptr + 1;
      put := put + [c];
      assert writeBuffer[..pptr] == before + [c];
      assert written + (before + [c]) == written + before + [c];
    }

    /** sputc(): stores a character, flushing a full buffer first. */
    method PutChar(c: T, taken: nat) returns (ok: bool)
      requires Valid() && taken <= pptr
      modifies this`pptr, this`written, this`put, writeBuffer
      ensures Valid() && put == old(put) + if ok then [c] else []
      ensures ok <==> old(pptr) < bufsize || (output && taken == old(pptr))
      ensures old(pptr) < bufsize || !output ==> written == old(written)
      ensures old(pptr) == bufsize && output ==> written == old(written) + old(writeBuffer[..taken])
      ensures ok ==> writeBuffer[..pptr] == (if old(pptr) < bufsize then old(writeBuffer[..pptr]) else []) + [c]
      ensures !ok ==> writeBuffer[..pptr] == old(writeBuffer[..pptr])
      ensures old(Conserved()) && (taken == 0 || taken == old(pptr)) ==> Conserved()
    {
      if pptr < bufsize {
        StoreChar(c);
        ok := true;
      } else {
        var r := Overflow(Some(c), taken);
        ok := r.Some?;
      }
    }

    /** sync() */
    method Sync(taken: nat) returns (r: int)
      requires Valid() && taken <= pptr
      modifies this`pptr, this`written
      ensures Valid() && r == if old(pptr) > 0 && taken != old(pptr) then -1 else 0
      ensures r == 0 ==> pptr == 0
      ensures old(Conserved()) && (taken == 0 || taken == old(pptr)) ==> Conserved()
    {
      r := 0;
      if pptr > 0 {
        var n := FlushBuffer(taken);
        if n == -1 {
          r := -1;
        }
      }
    }
  }

  /** The last n characters read stand at the end of a buffer of five. */
  ghost predicate HoldsTail<T>(buffer: seq<T>, n: nat, chars: seq<T>) {
    |buffer| == 5 && n <= 5 && n <= |chars| && forall i :: 5 - n <= i < 5 ==> buffer[i] == chars[|chars| - 5 + i]
  }

  lemma OneMoreInTail<T>(buffer: seq<T>, n: nat, chars: seq<T>, c: T)
    requires HoldsTail(buffer, n, chars) && n <= 4
    ensures HoldsTail(AfterRefill(buffer, if n == 0 then 4 else 5 - n, if n == 0 then 4 else 5, [c]), n + 1, chars + [c])
  {
  }

  /** A buffer of five whose device has delivered n characters one by one. */
  ghost predicate ReadSingly<T(0)>(buffer: StreamBuf<T>, n: nat, chars: seq<T>)
    reads buffer, buffer.readBuffer, buffer.writeBuffer
  {
    buffer.Valid() && buffer.bufsize == 5 && buffer.input && buffer.consumed == chars && |chars| == n <= 5 &&
    buffer.gptr == buffer.egptr == (if n == 0 then 4 else 5) && buffer.eback == (if n == 0 then 4 else 5 - n) &&
    HoldsTail(buffer.readBuffer[..], n, chars)
  }

  method ReadOne<T(0)>(buffer: StreamBuf<T>, ghost chars: seq<T>, c: T)
    requires ReadSingly(buffer, |chars|, chars) && |chars| <= 4
    modifies buffer, buffer.readBuffer
    ensures ReadSingly(buffer, |chars| + 1, chars + [c])
  {
    hide HoldsTail, AfterRefill, Delivers, HoldsLast;
    OneMoreInTail(buffer.readBuffer[..], |chars|, chars, c);
    var r := buffer.Bump([c]);
  }

  method ReadFive<T(0)>(x: seq<T>) returns (buffer: StreamBuf<T>)
    requires |x| == 5
    ensures fresh(buffer) && fresh(buffer.readBuffer) && ReadSingly(buffer, 5, x)
  {
    buffer := new StreamBuf<T>(5, true, true);
    assert ReadSingly(buffer, 0, x[..0]);
    hide ReadSingly;
    for i := 0 to 5
      invariant fresh(buffer) && fresh(buffer.readBuffer) && ReadSingly(buffer, i, x[..i])
    {
      assert x[..i + 1] == x[..i] + [x[i]];
      ReadOne(buffer, x[..i], x[i]);
    }
    assert x[..5] == x;
  }

  lemma DamagedTail<T>(buffer: seq<T>, x: seq<T>)
    requires |x| == 6 && HoldsTail(buffer, 5, x[..5])
    ensures AfterRefill(AfterRefill(buffer, 0, 5, []), 0, 5, [x[5]]) == [x[2], x[3], x[4], x[4], x[5]]
  {
  }

  lemma NotWhatWasRead<T>(buffer: seq<T>, x: seq<T>)
    requires |x| == 6 && buffer == [x[2], x[3], x[4], x[4], x[5]]
    ensures x[2] != x[3] ==> !HoldsLast(buffer, 5, 4, x)
  {
    assert buffer[1] == x[3] && x[6 - 5 + 1] == x[2];
  }

  /** A stream that reaches the damage: the device delivers five characters one by one, once nothing, and
      then a sixth; what can be put back is not what was read. */
  method WrongCharactersCanBePutBack<T(0)>(x: seq<T>) returns (buffer: StreamBuf<T>)
    requires |x| == 6
    ensures buffer.consumed == x && buffer.eback == 0 && buffer.gptr == 5
    ensures buffer.readBuffer[..] == [x[2], x[3], x[4], x[4], x[5]]
    ensures x[2] != x[3] ==> !buffer.PutbackIntact()
  {
    hide AfterRefill, Delivers, HoldsLast, HoldsTail;
    buffer := ReadFive(x[..5]);
    DamagedTail(buffer.readBuffer[..], x);
    var c := buffer.Bump([]);
    c := buffer.Bump([x[5]]);
    assert x == x[..5] + [x[5]];
    NotWhatWasRead(buffer.readBuffer[..], x);
  }

  /** What a device takes of a partial write is sent to it again. */
  method PartialFlushRepeats<T(0)>(a: T, b: T) returns (written: seq<T>)
    ensures written == [a, a, b]
  {
    var buffer := new StreamBuf<T>(4, true, true);
    buffer.StoreChar(a);
    buffer.StoreChar(b);
    var failed := buffer.FlushBuffer(1);
    var n := buffer.FlushBuffer(2);
    written := buffer.written;
  }

  /** A flush through overflow() that succeeds returns end of file all the same. */
  method FlushedIsEndOfFile<T(0)>(a: T) returns (r: Option<T>, written: seq<T>, pending: nat)
    ensures r == None && written == [a] && pending == 0
  {
    var buffer := new StreamBuf<T>(4, true, true);
    buffer.StoreChar(a);
    r := buffer.Overflow(None, 1);
    written, pending := buffer.written, buffer.pptr;
  }
}
