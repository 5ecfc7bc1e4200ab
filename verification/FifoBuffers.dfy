/** The FIFO buffer: shared/include/Poco/FIFOBuffer.h over Buffer.h. */
module FifoBuffers {
  import opened Collections

  // ----- transition events ---------------------------------------------------------------------

  /** What notify() sends to the readable observers for a change of the used length. */
  function ReadableEvents(before: nat, after: nat): seq<bool> {
    if before == 0 && after > 0 then [true]
    else if before > 0 && after == 0 then [false]
    else []
  }

  /** What it sends to the writable observers, with the size at the time of the call. */
  function WritableEvents(before: nat, after: nat, size: nat): seq<bool> {
    if before == size && after < size then [true]
    else if before < size && after == size then [false]
    else []
  }

  /** The events alternate, starting from the initial status, and the last one is the current status. */
  ghost predicate Announces(initial: bool, events: seq<bool>, current: bool) {
    if events == [] then current == initial
    else events[|events| - 1] == current && Announces(initial, events[..|events| - 1], !current)
  }

  lemma AnnounceNext(initial: bool, events: seq<bool>, current: bool, more: seq<bool>, next: bool)
    requires Announces(initial, events, current)
    requires more == if next == current then [] else [next]
    ensures Announces(initial, events + more, next)
  {
    if next == current {
      assert events + more == events;
    } else {
      assert (events + more)[..|events|] == events;
    }
  }

  lemma {:induction false} AnnouncedStatus(initial: bool, events: seq<bool>, a: bool, b: bool)
    requires Announces(initial, events, a) && Announces(initial, events, b)
    ensures a == b
  {
  }

  /** Alternation in plain terms: no event repeats the one before it. */
  lemma {:induction false} AnnouncedAlternates(initial: bool, events: seq<bool>, current: bool, i: nat)
    requires Announces(initial, events, current) && i < |events|
    ensures events[i] == if i == 0 then !initial else !events[i - 1]
  {
    var n := |events|;
    if i < n - 1 {
      AnnouncedAlternates(initial, events[..n - 1], !current, i);
    } else if n > 1 {
      assert events[..n - 1][n - 2] == events[n - 2];
    }
  }

  /** The events of an operation that leaves the size alone keep both announcements true. */
  lemma TransitionIsAnnounced(
    size: nat, before: nat, after: nat, r0: bool, readable: seq<bool>, w0: bool, writable: seq<bool>)
    requires before <= size && after <= size
    requires Announces(r0, readable, before > 0) && Announces(w0, writable, before < size)
    ensures Announces(r0, readable + ReadableEvents(before, after), after > 0)
    ensures Announces(w0, writable + WritableEvents(before, after, size), after < size)
  {
    AnnounceNext(r0, readable, before > 0, ReadableEvents(before, after), after > 0);
    AnnounceNext(w0, writable, before < size, WritableEvents(before, after, size), after < size);
  }

  /** resize() compares with the new size only, so that it announces writability correctly exactly when ... */
  predicate ResizeIsAnnounced(oldSize: nat, newSize: nat, used: nat, preserve: bool) {
    if preserve then (used < oldSize <==> used < newSize)
    else if used == newSize && newSize > 0 then used == oldSize
    else (used < oldSize <==> newSize > 0)
  }

  function UsedAfterResize(used: nat, preserve: bool): nat {
    if preserve then used else 0
  }

  lemma ResizeAnnouncesIff(oldSize: nat, newSize: nat, used: nat, preserve: bool, w0: bool, events: seq<bool>)
    requires used <= oldSize && (preserve ==> used <= newSize)
    requires Announces(w0, events, used < oldSize)
    ensures ResizeIsAnnounced(oldSize, newSize, used, preserve)
        <==> Announces(w0, events + WritableEvents(used, UsedAfterResize(used, preserve), newSize),
                       UsedAfterResize(used, preserve) < newSize)
  {
    var after := UsedAfterResize(used, preserve);
    var more := WritableEvents(used, after, newSize);
    if more == [] {
      assert events + more == events;
      if after < newSize <==> used < oldSize {
      } else if Announces(w0, events, after < newSize) {
        AnnouncedStatus(w0, events, after < newSize, used < oldSize);
      }
    } else {
      assert (events + more)[..|events|] == events;
      if Announces(w0, events, false) && used < oldSize {
        AnnouncedStatus(w0, events, false, true);
      }
    }
  }

  /** A full buffer that grows becomes writable without a word. */
  lemma GrowingAFullBufferIsSilent()
    ensures Announces(true, [false], false) && !ResizeIsAnnounced(4, 8, 4, true)
    ensures WritableEvents(4, 4, 8) == []
  {
    assert [false][..0] == [];
  }

  // ----- how much write() accepts --------------------------------------------------------------

  /** Unsigned subtraction on words of the given number of values. */
  function Minus(a: nat, b: nat, words: nat): int {
    if a >= b then a - b else a - b + words
  }

  /** The length that write() computes in machine arithmetic. */
  function Accepted(size: nat, begin: nat, used: nat, length: nat, words: nat): int {
    var start := if Minus(size, begin + used, words) < length then 0 else begin;
    var available := Minus(size, used + start, words);
    if length > available then available else length
  }

  /** write() accepts min(length, size - used) for every length exactly while the used part lies within
      the size. */
  lemma AcceptsFreeSpaceIff(size: nat, begin: nat, used: nat, words: nat)
    requires used <= size < words && begin < words && begin + used < words
    ensures begin + used <= size
        <==> forall length: nat :: length < words ==>
               Accepted(size, begin, used, length, words) == if length < size - used then length else size - used
  {
    if begin + used > size {
      var length := size - used + 1;
      assert Accepted(size, begin, used, length, words) == length;
    }
  }

  lemma ConservedByPut<T>(removed: seq<T>, stored: seq<T>, accepted: seq<T>, more: seq<T>)
    requires removed + stored == accepted
    ensures removed + (stored + more) == accepted + more
  {
  }

  lemma ConservedByTake<T>(removed: seq<T>, stored: seq<T>, accepted: seq<T>, n: nat)
    requires removed + stored == accepted && n <= |stored|
    ensures (removed + stored[..n]) + stored[n..] == accepted
  {
  }

  lemma JoinSlices<T>(a: array<T>, i: nat, j: nat, k: nat)
    requires i <= j <= k <= a.Length
    ensures a[i..k] == a[i..j] + a[j..k]
  {
  }

  lemma SliceOfPrefix<T>(s: seq<T>, n: nat, i: nat, j: nat)
    requires i <= j <= n <= |s|
    ensures s[..n][i..j] == s[i..j]
  {
  }

  /** memcpy, and memmove from the same memory. */
  method CopyInto<T>(target: array<T>, at: nat, source: seq<T>)
    requires at + |source| <= target.Length
    modifies target
    ensures target[..at] == old(target[..at])
    ensures target[at..at + |source|] == source
    ensures target[at + |source|..] == old(target[at + |source|..])
  {
    forall i | 0 <= i < |source| {
      target[at + i] := source[i];
    }
  }

  // ----- the buffer ----------------------------------------------------------------------------

  class FifoBuffer<T(0)> {
    // Buffer<T>: _ptr and _capacity, _used, _ownMem
    var data: array<T>
    var size: nat
    const ownMem: bool
    // BasicFIFOBuffer<T>
    var begin: nat
    var used: nat
    var notify: bool
    var eof: bool
    var error: bool
    // what the observers of the two events have been told
    var readable: seq<bool>
    var writable: seq<bool>
    // their initial status, and the elements ever accepted and removed
    ghost var readable0: bool
    ghost var writable0: bool
    ghost var accepted: seq<T>
    ghost var removed: seq<T>

    ghost predicate InMemory()
      reads this
    {
      size <= data.Length && used <= size && begin + used <= data.Length
    }

    ghost function Contents(): seq<T>
      requires InMemory()
      reads this, data
    {
      data[begin..begin + used]
    }

    /** First in, first out: what was removed, followed by what is stored, is what was accepted. In the
        error state nothing is stored. */
    ghost predicate Valid()
      reads this, data
    {
      InMemory() && begin + used <= size && removed + Contents() == accepted && (error ==> used == 0)
    }

    ghost predicate Announced()
      reads this
    {
      notify && Announces(readable0, readable, used > 0) && Announces(writable0, writable, used < size)
    }

    constructor (size: nat, notify: bool)
      ensures Valid() && fresh(data) && Contents() == [] && this.size == size && !eof && !error && ownMem
      ensures this.notify == notify && (notify ==> Announced())
    {
      data := new T[size];
      this.size, ownMem := size, true;
      begin, used, this.notify, eof, error := 0, 0, notify, false, false;
      readable, writable, accepted, removed := [], [], [], [];
      readable0, writable0 := false, size > 0;
    }

    /** BasicFIFOBuffer(const T*, size): the buffer starts full. */
    constructor FromData(pBuffer: seq<T>, notify: bool)
      ensures Valid() && fresh(data) && Contents() == pBuffer && size == |pBuffer| && !eof && !error && ownMem
      ensures this.notify == notify && (notify ==> Announced())
    {
      var copy := new T[|pBuffer|](i requires 0 <= i < |pBuffer| => pBuffer[i]);
      data := copy;
      size, ownMem := |pBuffer|, true;
      begin, used, this.notify, eof, error := 0, |pBuffer|, notify, false, false;
      readable, writable, accepted, removed := [], [], pBuffer, [];
      readable0, writable0 := |pBuffer| > 0, false;
      new;
      assert data[..] == pBuffer;
    }

    /** BasicFIFOBuffer(T*, size): the memory stays with its owner, who alone can resize it. */
    constructor Wrap(pBuffer: array<T>, notify: bool)
      ensures Valid() && data == pBuffer && Contents() == [] && size == pBuffer.Length && !eof && !error && !ownMem
      ensures this.notify == notify && (notify ==> Announced())
    {
      data, size, ownMem := pBuffer, pBuffer.Length, false;
      begin, used, this.notify, eof, error := 0, 0, notify, false, false;
      readable, writable, accepted, removed := [], [], [], [];
      readable0, writable0 := false, pBuffer.Length > 0;
    }

    predicate IsReadable()
      reads this
    {
      used != 0 && !error
    }

    predicate IsWritable()
      reads this
    {
      size != used && !error && !eof
    }

    method Notify(usedBefore: nat)
      modifies this`readable, this`writable
      ensures readable == old(readable) + ReadableEvents(usedBefore, used)
      ensures writable == old(writable) + WritableEvents(usedBefore, used, size)
    {
      if usedBefore == 0 && used > 0 {
        readable := readable + [true];
      } else if usedBefore > 0 && 0 == used {
        readable := readable + [false];
      }
      if usedBefore == size && used < size {
        writable := writable + [true];
      } else if usedBefore < size && used == size {
        writable := writable + [false];
      }
    }

    /** if (_notify) notify(usedBefore), for a change that left the size alone. */
    method NotifyChange(usedBefore: nat)
      requires used <= size && usedBefore <= size
      modifies this`readable, this`writable
      ensures (notify && Announces(readable0, old(readable), usedBefore > 0) &&
               Announces(writable0, old(writable), usedBefore < size)) ==> Announced()
      ensures readable == old(readable) + if notify then ReadableEvents(usedBefore, used) else []
      ensures writable == old(writable) + if notify then WritableEvents(usedBefore, used, size) else []
    {
      if notify {
        ghost var r, w := readable, writable;
        Notify(usedBefore);
        if Announces(readable0, r, usedBefore > 0) && Announces(writable0, w, usedBefore < size) {
          TransitionIsAnnounced(size, usedBefore, used, readable0, r, writable0, w);
        }
      }
    }

    /** begin(): moves the stored elements to the start of the memory. */
    method Begin()
      requires Valid()
      modifies this`begin, data
      ensures Valid() && begin == 0 && Contents() == old(Contents())
    {
      if begin != 0 {
        CopyInto(data, 0, data[begin..begin + used]);
        begin := 0;
      }
    }

    /** The tail of write(), copy() and advance(): the elements behind the stored ones become stored. */
    method Extend(length: nat)
      requires Valid() && !error && begin + used + length <= size
      modifies this`used, this`accepted, this`readable, this`writable
      ensures Valid() && used == old(used) + length
      ensures Contents() == old(Contents()) + data[begin + old(used)..begin + used]
      ensures accepted == old(accepted) + data[begin + old(used)..begin + used]
      ensures old(Announced()) ==> Announced()
    {
      hide Announces, ReadableEvents, WritableEvents;
      ghost var more := data[begin + used..begin + used + length];
      JoinSlices(data, begin, begin + used, begin + used + length);
      ConservedByPut(removed, Contents(), accepted, more);
      var usedBefore := used;
      used := used + length;
      accepted := accepted + more;
      NotifyChange(usedBefore);
    }

    /** The common part of write() and copy(): puts elements that fit behind the stored ones. */
    method Store(source: seq<T>)
      requires Valid() && !error && used + |source| <= size
      modifies this`begin, this`used, this`accepted, this`readable, this`writable, data
      ensures Valid() && used == old(used) + |source| && begin == 0
      ensures Contents() == old(Contents()) + source && accepted == old(accepted) + source
      ensures old(Announced()) ==> Announced()
    {
      hide Announces;
      Begin();
      CopyInto(data, used, source);
      Extend(|source|);
    }

    /** The tail of read() and drain(): forgets the n oldest elements. */
    method Forget(n: nat, newBegin: nat)
      requires Valid() && n <= used && newBegin == if n == used then 0 else begin + n
      modifies this`begin, this`used, this`removed, this`readable, this`writable
      ensures Valid() && used == old(used) - n && begin == newBegin
      ensures Contents() == old(Contents())[n..] && removed == old(removed) + old(Contents())[..n]
      ensures old(Announced()) ==> Announced()
    {
      hide Announces, ReadableEvents, WritableEvents;
      var usedBefore := used;
      ghost var before := Contents();
      ConservedByTake(removed, before, accepted, n);
      begin, used := newBegin, used - n;
      removed := removed + before[..n];
      assert Contents() == before[n..];
      NotifyChange(usedBefore);
    }

    method Peek(length: nat) returns (copied: seq<T>)
      requires Valid()
      ensures copied == if error then [] else Contents()[..if length < used then length else used]
    {
      if length == 0 || !IsReadable() {
        return [];
      }
      var n := if length > used then used else length;
      copied := data[begin..begin + n];
      assert copied == Contents()[..n];
    }

    /** read() into a raw buffer: takes the oldest elements. */
    method Read(length: nat) returns (copied: seq<T>)
      requires Valid()
      modifies this`begin, this`used, this`removed, this`readable, this`writable
      ensures Valid()
      ensures copied == if error then [] else old(Contents())[..if length < old(used) then length else old(used)]
      ensures Contents() == old(Contents())[|copied|..] && removed == old(removed) + copied
      ensures begin == if copied == [] then old(begin) else if used == 0 then 0 else old(begin) + |copied|
      ensures old(Announced()) ==> Announced()
    {
      if length == 0 || !IsReadable() {
        return [];
      }
      copied := Peek(length);
      Forget(|copied|, if used == |copied| then 0 else begin + length);
    }

    /** read() into a Buffer: length 0 asks for everything. */
    method ReadBuffer(length: nat) returns (copied: seq<T>)
      requires Valid()
      modifies this`begin, this`used, this`removed, this`readable, this`writable
      ensures Valid()
      ensures copied == if error then []
                        else old(Contents())[..if 0 < length < old(used) then length else old(used)]
      ensures Contents() == old(Contents())[|copied|..] && removed == old(removed) + copied
      ensures old(Announced()) ==> Announced()
    {
      copied := Read(if length == 0 || length > used then used else length);
    }

    /** write() from a raw buffer: appends as much as fits. */
    method Write(source: seq<T>) returns (len: nat)
      requires Valid()
      modifies this`begin, this`used, this`accepted, this`readable, this`writable, data
      ensures Valid()
      ensures len == if error || eof then 0
                     else if |source| < size - old(used) then |source| else size - old(used)
      ensures Contents() == old(Contents()) + source[..len] && accepted == old(accepted) + source[..len]
      ensures len > 0 ==> begin == 0
      ensures old(Announced()) ==> Announced()
    {
      var length := |source|;
      if length == 0 || !IsWritable() {
        return 0;
      }
      if size - (begin + used) < length {
        Begin();
      }
      var available := size - used - begin;
      len := if length > available then available else length;
      Store(source[..len]);
    }

    method Drain(length: nat)
      requires Valid()
      modifies this`begin, this`used, this`removed, this`readable, this`writable
      ensures Valid()
      ensures Contents() == old(Contents())[if 0 < length < old(used) then length else old(used)..]
      ensures old(Announced()) ==> Announced()
    {
      if length == 0 || length >= used {
        Forget(used, 0);
      } else {
        Forget(length, begin + length);
      }
    }

    /** copy(): all or nothing; false is InvalidAccessException. */
    method Copy(source: seq<T>) returns (ok: bool)
      requires Valid()
      modifies this`begin, this`used, this`accepted, this`readable, this`writable, data
      ensures Valid()
      ensures ok <==> source == [] || (|source| <= size - old(used) && !error && !eof)
      ensures Contents() == old(Contents()) + if ok then source else []
      ensures old(Announced()) ==> Announced()
    {
      if |source| == 0 {
        return true;
      }
      if |source| > size - used || !IsWritable() {
        return false;
      }
      ok := true;
      Store(source);
    }

    /** advance(): declares elements as used that were put behind the stored ones through next(). */
    method Advance(length: nat) returns (ok: bool)
      requires Valid()
      modifies this`begin, this`used, this`accepted, this`readable, this`writable, data
      ensures Valid()
      ensures ok <==> length <= size - old(used) && old(used) != size && !error && !eof
      ensures used == old(used) + if ok then length else 0
      ensures Contents()[..old(used)] == old(Contents())
      ensures ok && old(begin) == 0 ==> Contents() == old(data[..used + length])
      ensures old(Announced()) ==> Announced()
    {
      hide Announces;
      if length > size - used || !IsWritable() {
        assert Contents()[..used] == Contents();
        return false;
      }
      ok := true;
      if size - (begin + used) < length {
        Begin();
      }
      Extend(length);
    }

    /** resize(): the start of the stored part stays where it is, so that shrinking can cut it off. */
    method Resize(newSize: nat, preserveContent: bool) returns (ok: bool)
      requires Valid()
      modifies this
      ensures ok <==> ownMem && (preserveContent ==> old(used) <= newSize)
      ensures !ok ==> Valid() && unchanged(this)
      ensures ok ==> size == newSize && begin == old(begin) && (data == old(data) || fresh(data))
      ensures unchanged(`notify, `eof, `error) && (!notify ==> unchanged(`readable, `writable))
      ensures ok && preserveContent ==> InMemory() && Contents() == old(Contents())
      ensures ok && !preserveContent ==> used == 0
      ensures ok ==> (Valid() <==> old(begin) + used <= newSize)
      ensures ok && notify ==> readable == old(readable) + ReadableEvents(old(used), used) &&
                               writable == old(writable) + WritableEvents(old(used), used, newSize)
    {
      if (preserveContent && newSize < used) || !ownMem {
        return false;
      }
      hide ReadableEvents, WritableEvents;
      ok := true;
      var usedBefore := used;
      ResizeContents(newSize, preserveContent);
      if notify {
        Notify(usedBefore);
      }
    }

    /** resize() up to the notification. */
    method ResizeContents(newSize: nat, preserveContent: bool)
      requires Valid() && (preserveContent ==> used <= newSize)
      modifies this`data, this`size, this`used, this`removed
      ensures InMemory() && size == newSize && (data == old(data) || fresh(data))
      ensures used == (if preserveContent then old(used) else 0)
      ensures Contents() == if preserveContent then old(Contents()) else []
      ensures removed + Contents() == accepted
    {
      SliceOfPrefix(data[..], size, begin, begin + used);
      ghost var oldSize := size;
      ResizeMemory(newSize, preserveContent);
      SliceOfPrefix(data[..], oldSize, begin, begin + used);
      if !preserveContent {
        used := 0;
        removed := accepted;
      }
    }

    /** Buffer<T>::resize: more memory is allocated, less only lowers the size. */
    method ResizeMemory(newSize: nat, preserveContent: bool)
      requires size <= data.Length
      modifies this`data, this`size
      ensures size == newSize <= data.Length && (data == old(data) || fresh(data))
      ensures old(data.Length) <= data.Length && (data != old(data) ==> newSize > old(data.Length))
      ensures (data == old(data) || preserveContent) ==> data[..old(size)] == old(data[..size])
      ensures newSize <= old(data.Length) ==> data == old(data)
    {
      if newSize > data.Length {
        var bigger := new T[newSize];
        if preserveContent {
          forall i | 0 <= i < size {
            bigger[i] := data[i];
          }
        }
        data := bigger;
      }
      size := newSize;
    }

    /** setError(): raising the flag empties the buffer. */
    method SetError(flag: bool)
      requires Valid()
      modifies this`error, this`used, this`removed, this`readable, this`writable
      ensures Valid()
      ensures error == flag && Contents() == if flag then [] else old(Contents())
      ensures readable == old(readable) + if flag && old(IsReadable()) && notify then [false] else []
      ensures writable == old(writable) + if !notify then []
                                          else if flag then (if old(IsWritable()) then [false] else [])
                                          else if eof then [] else [true]
    {
      if flag {
        if IsReadable() && notify { readable := readable + [false]; }
        if IsWritable() && notify { writable := writable + [false]; }
        error, used := true, 0;
        removed := accepted;
      } else {
        error := false;
        if notify && !eof { writable := writable + [true]; }
      }
    }

    method SetEOF(flag: bool)
      requires Valid()
      modifies this`eof, this`writable
      ensures Valid()
      ensures eof == flag && Contents() == old(Contents())
      ensures writable == old(writable) + if notify then [!flag] else []
    {
      if notify { writable := writable + [!flag]; }
      eof := flag;
    }

    /** operator []; None is InvalidAccessException. */
    method At(index: nat) returns (element: Option<T>)
      requires Valid()
      ensures element == if index < used then Some(Contents()[index]) else None
    {
      element := if index >= used then None else Some(data[begin + index]);
    }
  }

  /** A buffer of size 4 that was filled and half read is shrunk to 3: the stored part now ends behind the
      size, and the invariant is gone. */
  method ShrinkingCutsOff<T(0)>(source: seq<T>) returns (buffer: FifoBuffer<T>)
    requires |source| == 4
    ensures buffer.size == 3 && buffer.begin == 2 && buffer.used == 2
    ensures buffer.InMemory() && buffer.Contents() == source[2..] && !buffer.Valid()
  {
    hide Announces, ReadableEvents, WritableEvents;
    buffer := new FifoBuffer(4, false);
    var len := buffer.Write(source);
    assert buffer.Contents() == source by { assert [] + source[..4] == source; }
    var copied := buffer.Read(2);
    var ok := buffer.Resize(3, true);
  }
}
