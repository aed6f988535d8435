/** The ring as one process sees it: the mapped counters and buffer as fields, the split
    memcpy as loops, and the zero-copy macro pairs. The wait loops are taken one round at
    a time: `Waiting` is the round that ends in busyWait and starts over, so a caller that
    retries plays the loop. RingProtocol has the loops themselves, with the other side
    running in between. */
module RingBuffer {
  import opened Bits
  import RingProtocol

  datatype Outcome = Done | Waiting | Refused

  /** `size` bytes of a circular buffer from a slot on. */
  ghost function Window(buffer: seq<byte>, offset: nat, size: nat): (w: seq<byte>)
    requires offset < |buffer| && size <= |buffer|
    ensures |w| == size
    ensures forall i | 0 <= i < size :: w[i] == buffer[At(|buffer|, offset, i)]
  {
    seq(size, i requires 0 <= i < size => buffer[At(|buffer|, offset, i)])
  }

  /** Two windows of the same buffer that lie end to end are one window. */
  lemma WindowsJoin(buffer: seq<byte>, offset: nat, a: nat, next: nat, b: nat)
    requires offset < |buffer| && a + b <= |buffer| && next == At(|buffer|, offset, a)
    ensures next < |buffer|
    ensures Window(buffer, offset, a) + Window(buffer, next, b) == Window(buffer, offset, a + b)
  {
    forall i | 0 <= i < b
      ensures At(|buffer|, next, i) == At(|buffer|, offset, a + i)
    {
    }
  }

  lemma SlotAdvances(n: nat, counter: nat, size: nat)
    requires 0 < n && size <= n
    ensures (counter + size) % n == At(n, counter % n, size)
  {
    if size < n {
      RingProtocol.OffsetModular(n, counter, size);
    } else {
      Distribute(n, counter / n, 1);
      RemainderUnique(counter + n, n, counter / n + 1, counter % n);
    }
  }

  lemma CounterFollows(head: nat, tail: nat)
    requires head < WRAP && tail < WRAP
    ensures tail == Wrap32(head + RingProtocol.Size(head, tail))
  {
    WrapOfWrapped(tail - head, head);
    WrapOfSmall(tail);
  }

  lemma MaskAdvances(n: nat, counter: nat, size: nat)
    requires PowerOfTwo(n) && counter < WRAP && size <= n
    ensures n > 0 && And(counter, n - 1) < n
    ensures And(Wrap32(counter + size), n - 1) == At(n, And(counter, n - 1), size)
  {
    MaskOf(counter, n);
    var slot := And(counter, n - 1);
    assert And(Wrap32(counter + size), n - 1) == (counter + size) % n by { CounterSlot(counter + size, n); }
    assert (counter + size) % n == At(n, slot, size) by { SlotAdvances(n, counter, size); }
  }

  /** The class stores its bytes where the interleaved machine's copy steps store them. */
  lemma SlotIsAt(n: nat, counter: nat, size: nat, j: nat)
    requires PowerOfTwo(n) && counter < WRAP && j < size <= n
    ensures n > 0 && RingProtocol.Slot(n, counter, size, j) == At(n, And(counter, n - 1), j)
  {
    MaskOf(counter, n);
  }

  lemma SamePlace(n: nat, offset: nat, next: nat, size: nat, i: nat)
    requires offset < n && size <= n && next == At(n, offset, size) && i < size
    ensures Back(n, next, At(n, offset, i)) >= n - size
  {
  }

  /** Writing into one window leaves the window before it alone. */
  lemma WindowUntouched(before: seq<byte>, after: seq<byte>, offset: nat, size: nat, next: nat, count: nat)
    requires |after| == |before| && offset < |before| && size + count <= |before|
    requires next == At(|before|, offset, size)
    requires forall k | 0 <= k < |before| && Back(|before|, next, k) >= count :: after[k] == before[k]
    ensures Window(after, offset, size) == Window(before, offset, size)
  {
    forall i | 0 <= i < size
      ensures Window(after, offset, size)[i] == Window(before, offset, size)[i]
    {
      SamePlace(|before|, offset, next, size, i);
    }
  }

  /** Bytes stored in the free slots that follow a window extend it. */
  lemma WindowExtended(before: seq<byte>, after: seq<byte>, offset: nat, fill: nat, next: nat, data: seq<byte>)
    requires |after| == |before| && offset < |before| && fill + |data| <= |before|
    requires next == At(|before|, offset, fill) && Window(after, next, |data|) == data
    requires forall k | 0 <= k < |before| && Back(|before|, next, k) >= |data| :: after[k] == before[k]
    ensures Window(after, offset, fill + |data|) == Window(before, offset, fill) + data
  {
    WindowUntouched(before, after, offset, fill, next, |data|);
    WindowsJoin(after, offset, fill, next, |data|);
  }

  /** memcpy into an array. */
  method CopyInto(dst: array<byte>, at: nat, src: array<byte>, from: nat, count: nat)
    requires dst != src
    requires at + count <= dst.Length && from + count <= src.Length
    modifies dst
    ensures forall k | at <= k < at + count :: dst[k] == src[from + (k - at)]
    ensures forall k | 0 <= k < dst.Length && !(at <= k < at + count) :: dst[k] == old(dst[k])
  {
    for i := 0 to count
      invariant forall k | at <= k < at + i :: dst[k] == src[from + (k - at)]
      invariant forall k | 0 <= k < dst.Length && !(at <= k < at + i) :: dst[k] == old(dst[k])
    {
      dst[at + i] := src[from + i];
    }
  }

  /** What RING_READ_BEGIN hands out: nothing, a place in the buffer, or a copy. */
  datatype ReadView =
    | NoData
    | ReadInPlace(newHead: nat, offset: nat)
    | ReadCopy(newHead: nat, copy: array<byte>)

  /** What RING_WRITE_BEGIN hands out: nothing, a place in the buffer, or scratch memory. */
  datatype WriteView =
    | NoRoom
    | WriteInPlace(newTail: nat, offset: nat)
    | WriteScratch(newTail: nat, offset: nat, scratch: array<byte>)

  class RingBuffer {
    const bufferSize: nat
    const buffer: array<byte>
    var head: nat
    var tail: nat
    var exit: bool

    ghost predicate Valid()
      reads this
    {
      && PowerOfTwo(bufferSize) && buffer.Length == bufferSize > 0
      && head < WRAP && tail < WRAP
      && RingProtocol.Size(head, tail) <= bufferSize
    }

    function Offset(counter: nat): nat
      requires bufferSize > 0
    {
      And(counter, bufferSize - 1)
    }

    /** The unread bytes, oldest first. */
    ghost function Contents(): seq<byte>
      reads this, buffer
      requires Valid()
    {
      OffsetInside(head);
      Window(buffer[..], Offset(head), RingProtocol.Size(head, tail))
    }

    lemma OffsetInside(counter: nat)
      requires PowerOfTwo(bufferSize) && bufferSize > 0 && counter < WRAP
      ensures Offset(counter) < bufferSize
    {
      MaskOf(counter, bufferSize);
    }

    /** Advancing a counter advances its slot, whether or not the counter wraps. */
    lemma OffsetAdvances(counter: nat, size: nat)
      requires PowerOfTwo(bufferSize) && bufferSize > 0 && counter < WRAP && size <= bufferSize
      ensures Offset(counter) < bufferSize
      ensures Offset(Wrap32(counter + size)) == At(bufferSize, Offset(counter), size)
    {
      MaskAdvances(bufferSize, counter, size);
    }

    lemma TailFollows()
      requires Valid()
      ensures tail == Wrap32(head + RingProtocol.Size(head, tail))
      ensures Offset(head) < bufferSize
      ensures Offset(tail) == At(bufferSize, Offset(head), RingProtocol.Size(head, tail))
    {
      CounterFollows(head, tail);
      OffsetAdvances(head, RingProtocol.Size(head, tail));
    }

    constructor (bufferSize: nat)
      requires PowerOfTwo(bufferSize)
      ensures Valid() && fresh(buffer) && this.bufferSize == bufferSize
      ensures Contents() == [] && head == tail == 0 && !exit
    {
      PowerOfTwoPositive(bufferSize);
      this.bufferSize := bufferSize;
      buffer := new byte[bufferSize](_ => 0);
      head, tail, exit := 0, 0, false;
    }

    /** One round of RingBuffer_waitForWrite. */
    method PollWrite(size: nat) returns (r: Outcome)
      requires Valid()
      ensures r == Done <==> |Contents()| + size <= bufferSize
      ensures r == Refused <==> |Contents()| + size > bufferSize && exit
    {
      PowerOfTwoPositive(bufferSize);
      if RingProtocol.FreeSpace(bufferSize, head, tail) >= size { return Done; }
      r := if exit then Refused else Waiting;
    }

    /** One round of RingBuffer_waitForRead. */
    method PollRead(size: nat) returns (r: Outcome)
      requires Valid()
      ensures r == Done <==> size <= |Contents()|
      ensures r == Refused <==> size > |Contents()| && exit
    {
      if RingProtocol.Size(head, tail) >= size { return Done; }
      r := if exit then Refused else Waiting;
    }

    /** The copy of RingBuffer_write and RING_WRITE_END: one memcpy, or two. */
    method CopyAt(offset: nat, src: array<byte>)
      requires Valid() && src != buffer && src.Length <= bufferSize && offset < bufferSize
      modifies buffer
      ensures Window(buffer[..], offset, src.Length) == src[..]
      ensures forall k | 0 <= k < bufferSize && Back(bufferSize, offset, k) >= src.Length :: buffer[k] == old(buffer[k])
    {
      var size := src.Length;
      if offset + size <= bufferSize {
        CopyInto(buffer, offset, src, 0, size);
      } else {
        var start := bufferSize - offset;
        CopyInto(buffer, offset, src, 0, start);
        CopyInto(buffer, 0, src, start, size - start);
      }
    }

    /** The copy of RingBuffer_read and RING_READ_BEGIN. */
    method CopyFrom(offset: nat, dst: array<byte>)
      requires Valid() && dst != buffer && dst.Length <= bufferSize && offset < bufferSize
      modifies dst
      ensures dst[..] == Window(buffer[..], offset, dst.Length)
    {
      var size := dst.Length;
      if offset + size <= bufferSize {
        CopyInto(dst, 0, buffer, offset, size);
      } else {
        var start := bufferSize - offset;
        CopyInto(dst, 0, buffer, offset, start);
        CopyInto(dst, start, buffer, 0, size - start);
      }
    }

    /** RingBuffer_write. */
    method Write(data: array<byte>) returns (r: Outcome)
      requires Valid() && data != buffer
      modifies this`tail, buffer
      ensures Valid()
      ensures r == Done <==> |old(Contents())| + data.Length <= bufferSize
      ensures r == Refused <==> data.Length > bufferSize || (|old(Contents())| + data.Length > bufferSize && exit)
      ensures r == Done ==> Contents() == old(Contents()) + data[..] && tail == Wrap32(old(tail) + data.Length)
      ensures r != Done ==> Contents() == old(Contents()) && tail == old(tail)
    {
      if data.Length > bufferSize { return Refused; }
      r := PollWrite(data.Length);
      if r != Done { return; }
      OffsetInside(tail);
      CopyAt(Offset(tail), data);
      PublishTail(Wrap32(tail + data.Length), data[..], old(buffer[..]));
    }

    /** RingBuffer_setTail after a copy. */
    method PublishTail(newTail: nat, ghost data: seq<byte>, ghost before: seq<byte>)
      requires Valid() && newTail == Wrap32(tail + |data|)
      requires RingProtocol.Size(head, tail) + |data| <= bufferSize && |before| == bufferSize
      requires Offset(tail) < bufferSize && Window(buffer[..], Offset(tail), |data|) == data
      requires forall k | 0 <= k < bufferSize && Back(bufferSize, Offset(tail), k) >= |data| :: buffer[k] == before[k]
      modifies this`tail
      ensures Valid() && tail == newTail && Offset(head) < bufferSize
      ensures Contents() == Window(before, Offset(head), RingProtocol.Size(head, old(tail))) + data
    {
      PowerOfTwoPositive(bufferSize);
      DistanceGrows(tail, head, |data|);
      TailFollows();
      WindowExtended(before, buffer[..], Offset(head), RingProtocol.Size(head, tail), Offset(tail), data);
      tail := newTail;
    }

    /** Moving the head forward drops the oldest bytes. */
    lemma Dropped(newHead: nat, size: nat)
      requires Valid() && newHead == Wrap32(head + size) && size <= RingProtocol.Size(head, tail)
      ensures RingProtocol.Size(newHead, tail) == RingProtocol.Size(head, tail) - size
      ensures Offset(newHead) < bufferSize
      ensures Window(buffer[..], Offset(newHead), RingProtocol.Size(newHead, tail)) == Contents()[size..]
      ensures Offset(head) < bufferSize && Window(buffer[..], Offset(head), size) == Contents()[..size]
    {
      DistanceShrinks(tail, head, size);
      OffsetAdvances(head, size);
      OffsetInside(newHead);
      WindowsJoin(buffer[..], Offset(head), size, Offset(newHead), RingProtocol.Size(newHead, tail));
    }

    /** RingBuffer_read. */
    method Read(data: array<byte>) returns (r: Outcome)
      requires Valid() && data != buffer
      modifies this`head, data
      ensures Valid()
      ensures r == Done <==> data.Length <= |old(Contents())|
      ensures r == Refused <==> data.Length > bufferSize || (data.Length > |old(Contents())| && exit)
      ensures r == Done ==> old(Contents()) == data[..] + Contents() && head == Wrap32(old(head) + data.Length)
      ensures r != Done ==> Contents() == old(Contents()) && head == old(head) && data[..] == old(data[..])
    {
      if data.Length > bufferSize { return Refused; }
      r := PollRead(data.Length);
      if r != Done { return; }
      OffsetInside(head);
      ghost var size, before := data.Length, Contents();
      Dropped(Wrap32(head + data.Length), size);
      CopyFrom(Offset(head), data);
      assert data[..] == before[..size] && before == before[..size] + before[size..];
      head := Wrap32(head + data.Length);
      assert Contents() == before[size..];
    }

    /** RING_READ_BEGIN. Unlike RingBuffer_read it does not compare the size with the
        buffer's, and a size of zero yields nothing. */
    method ReadBegin(size: nat) returns (v: ReadView)
      requires Valid()
      ensures v.NoData? <==> size == 0 || size > |Contents()|
      ensures !v.NoData? ==> v.newHead == Wrap32(head + size)
      ensures v.ReadInPlace? ==>
                v.offset + size <= bufferSize && buffer[v.offset..v.offset + size] == Contents()[..size]
      ensures v.ReadCopy? ==> fresh(v.copy) && v.copy[..] == Contents()[..size]
    {
      if size == 0 { return NoData; }
      var r := PollRead(size);
      if r != Done { return NoData; }
      OffsetInside(head);
      var offset := Offset(head);
      Dropped(Wrap32(head + size), size);
      if offset + size <= bufferSize {
        v := ReadInPlace(Wrap32(head + size), offset);
        assert buffer[offset..offset + size] == Window(buffer[..], offset, size);
      } else {
        var copy := new byte[size](_ => 0);
        CopyFrom(offset, copy);
        v := ReadCopy(Wrap32(head + size), copy);
      }
    }

    /** RING_READ_END: the head is published only when the new counter is not zero. */
    method ReadEnd(v: ReadView, ghost size: nat)
      requires Valid() && (v.NoData? || (v.newHead == Wrap32(head + size) && size <= |Contents()|))
      modifies this`head
      ensures Valid()
      ensures if v.NoData? || v.newHead == 0 then head == old(head) && Contents() == old(Contents())
              else head == v.newHead && Contents() == old(Contents())[size..]
    {
      if !v.NoData? && v.newHead > 0 {
        Dropped(v.newHead, size);
        head := v.newHead;
      }
    }

    /** RING_WRITE_BEGIN. */
    method WriteBegin(size: nat) returns (v: WriteView)
      requires Valid()
      ensures v.NoRoom? <==> size == 0 || |Contents()| + size > bufferSize
      ensures !v.NoRoom? ==> v.newTail == Wrap32(tail + size) && v.offset == Offset(tail) < bufferSize
      ensures v.WriteInPlace? ==> v.offset + size <= bufferSize
      ensures v.WriteScratch? ==> fresh(v.scratch) && v.scratch.Length == size && v.offset + size > bufferSize
    {
      if size == 0 { return NoRoom; }
      var r := PollWrite(size);
      if r != Done { return NoRoom; }
      OffsetInside(tail);
      var offset := Offset(tail);
      if offset + size <= bufferSize {
        v := WriteInPlace(Wrap32(tail + size), offset);
      } else {
        var scratch := new byte[size](_ => 0);
        v := WriteScratch(Wrap32(tail + size), offset, scratch);
      }
    }

    /** What a caller does between the two macros: fill the place it was given. */
    method Fill(v: WriteView, data: array<byte>)
      requires Valid() && data != buffer && !v.NoRoom? && v.offset < bufferSize
      requires v.WriteInPlace? ==> v.offset + data.Length <= bufferSize
      requires v.WriteScratch? ==> v.scratch.Length == data.Length && v.scratch != buffer && v.scratch != data
      modifies if v.WriteScratch? then v.scratch else buffer
      ensures v.WriteScratch? ==> v.scratch[..] == data[..]
      ensures v.WriteInPlace? ==> data.Length <= bufferSize && Window(buffer[..], v.offset, data.Length) == data[..]
      ensures v.WriteInPlace? ==> forall k | 0 <= k < bufferSize
          && Back(bufferSize, v.offset, k) >= data.Length :: buffer[k] == old(buffer[k])
    {
      if v.WriteScratch? {
        CopyInto(v.scratch, 0, data, 0, data.Length);
      } else {
        CopyInto(buffer, v.offset, data, 0, data.Length);
      }
    }

    /** The writer's pair with the caller's filling in between, as the client uses it: the
        ring ends up as RingBuffer_write would leave it, unless the new counter is zero,
        and then nothing is published. */
    method WriteZeroCopy(data: array<byte>) returns (done: bool)
      requires Valid() && data != buffer
      modifies this`tail, buffer
      ensures Valid()
      ensures done <==> 0 < data.Length && |old(Contents())| + data.Length <= bufferSize
      ensures done && Wrap32(old(tail) + data.Length) != 0 ==>
                Contents() == old(Contents()) + data[..] && tail == Wrap32(old(tail) + data.Length)
      ensures !done || Wrap32(old(tail) + data.Length) == 0 ==>
                Contents() == old(Contents()) && tail == old(tail)
      ensures done ==> (Contents() == old(Contents()) + data[..] <==> Wrap32(old(tail) + data.Length) != 0)
    {
      var v := WriteBegin(data.Length);
      if v.NoRoom? { return false; }
      ghost var before := buffer[..];
      Fill(v, data);
      // RING_WRITE_END
      if v.WriteScratch? {
        CopyAt(v.offset, v.scratch);
      }
      if v.newTail > 0 {
        PublishTail(v.newTail, data[..], before);
      } else {
        TailFollows();
        WindowUntouched(before, buffer[..], Offset(head), RingProtocol.Size(head, tail), Offset(tail), data.Length);
      }
      done := true;
    }

    /** The reader's pair: the bytes are those RingBuffer_read would copy out, and the ring
        ends up as it would leave it, unless the new counter is zero: then the bytes stay
        and the next read returns them again. */
    method ReadZeroCopy(size: nat) returns (done: bool, data: seq<byte>)
      requires Valid()
      modifies this`head
      ensures Valid()
      ensures done <==> 0 < size <= |old(Contents())|
      ensures done ==> data == old(Contents())[..size]
      ensures done && Wrap32(old(head) + size) != 0 ==>
                Contents() == old(Contents())[size..] && head == Wrap32(old(head) + size)
      ensures !done || Wrap32(old(head) + size) == 0 ==> Contents() == old(Contents()) && head == old(head)
      ensures done ==> (Contents() == old(Contents())[size..] <==> Wrap32(old(head) + size) != 0)
    {
      var v := ReadBegin(size);
      data := if v.NoData? then [] else if v.ReadInPlace? then buffer[v.offset..v.offset + size] else v.copy[..];
      ReadEnd(v, size);
      done := !v.NoData?;
    }
  }

  /** The case the macros miss: the header that ends at the wrap of the head counter is
      handed out again and again, and never leaves the ring. */
  method HeaderReadTwice(ring: RingBuffer) returns (first: seq<byte>, second: seq<byte>)
    requires ring.Valid() && ring.head == WRAP - 8 && |ring.Contents()| >= 8
    modifies ring`head
    ensures ring.Valid() && ring.Contents() == old(ring.Contents())
    ensures first == second == ring.Contents()[..8]
  {
    var done1, done2;
    done1, first := ring.ReadZeroCopy(8);
    done2, second := ring.ReadZeroCopy(8);
  }
}
