/** The shared-memory ring as a step system: one writer thread and one reader thread,
    each a small program over the shared counters, and an EXIT flag anybody may raise.
    A step is one atomic action of one thread: an acquire load of the other side's
    counter, the copying of one byte, or the release store that publishes a counter. */
module RingProtocol {
  import opened Bits

  /** Where the thread calling RingBuffer_write stands. */
  datatype Writer =
    | WIdle
    | WWait(data: seq<byte>)
    | WSeen(data: seq<byte>, free: nat)
    | WSpin(data: seq<byte>)
    | WCopy(data: seq<byte>, tail: nat, copied: set<nat>)
    | WReturned(data: seq<byte>, ok: bool)

  /** Where the thread calling RingBuffer_read stands. The caller's memory starts out as
      zeros here; every byte of it is overwritten before the read returns true. */
  datatype Reader =
    | RIdle
    | RWait(size: nat)
    | RSeen(size: nat, avail: nat)
    | RSpin(size: nat)
    | RCopy(size: nat, head: nat, out: seq<byte>, copied: set<nat>)
    | RReturned(out: seq<byte>, ok: bool)

  /** `sent` and `received` are histories: everything published by completed copies of
      the writer, and everything handed out by completed reads. The code has neither. */
  datatype Ring = Ring(
    bufferSize: nat, head: nat, tail: nat, exit: bool, buffer: seq<byte>,
    writer: Writer, reader: Reader,
    sent: seq<byte>, received: seq<byte>)

  datatype Step =
    | CallWrite(data: seq<byte>)
    | LoadHead
    | DecideWrite
    | SpinWrite
    | WriteByte(j: nat)
    | PublishTail
    | ReturnWrite
    | CallRead(size: nat)
    | LoadTail
    | DecideRead
    | SpinRead
    | ReadByte(j: nat)
    | PublishHead
    | ReturnRead
    | RaiseExit

  /** RingBuffer_size and RingBuffer_freeSpace: uint32_t subtraction. */
  function Size(head: nat, tail: nat): nat {
    Wrap32(tail - head)
  }

  function FreeSpace(bufferSize: nat, head: nat, tail: nat): nat {
    Wrap32(bufferSize - Size(head, tail))
  }

  /** The buffer index that byte `j` of a transfer of `size` bytes starting at `counter`
      is copied to or from: one memcpy, or two when the transfer passes the end. */
  function Slot(bufferSize: nat, counter: nat, size: nat, j: nat): int
    requires bufferSize > 0
  {
    var offset := And(counter, bufferSize - 1);
    if offset + size <= bufferSize then
      offset + j
    else
      var start := bufferSize - offset;
      if j < start then offset + j else j - start
  }

  ghost predicate Init(s: Ring) {
    && PowerOfTwo(s.bufferSize)
    && s.head == 0 && s.tail == 0 && !s.exit
    && |s.buffer| == s.bufferSize
    && s.writer == WIdle && s.reader == RIdle
    && s.sent == [] && s.received == []
  }

  predicate AllCopied(copied: set<nat>, size: nat) {
    forall j | 0 <= j < size :: j in copied
  }

  predicate Enabled(s: Ring, step: Step) {
    match step
    case CallWrite(data) => s.writer.WIdle? && |data| < WRAP
    case LoadHead => s.writer.WWait?
    case DecideWrite => s.writer.WSeen?
    case SpinWrite => s.writer.WSpin?
    case WriteByte(j) =>
      && s.writer.WCopy? && j < |s.writer.data| && j !in s.writer.copied
      && s.bufferSize > 0
      && 0 <= Slot(s.bufferSize, s.writer.tail, |s.writer.data|, j) < |s.buffer|
    case PublishTail => s.writer.WCopy? && AllCopied(s.writer.copied, |s.writer.data|)
    case ReturnWrite => s.writer.WReturned?
    case CallRead(size) => s.reader.RIdle? && size < WRAP
    case LoadTail => s.reader.RWait?
    case DecideRead => s.reader.RSeen?
    case SpinRead => s.reader.RSpin?
    case ReadByte(j) =>
      && s.reader.RCopy? && j < s.reader.size && j !in s.reader.copied
      && j < |s.reader.out| && s.bufferSize > 0
      && 0 <= Slot(s.bufferSize, s.reader.head, s.reader.size, j) < |s.buffer|
    case PublishHead => s.reader.RCopy? && AllCopied(s.reader.copied, s.reader.size)
    case ReturnRead => s.reader.RReturned?
    case RaiseExit => true
  }

  function Do(s: Ring, step: Step): Ring
    requires Enabled(s, step)
  {
    match step
    case CallWrite(data) =>
      s.(writer := if |data| > s.bufferSize then WReturned(data, false) else WWait(data))
    case LoadHead =>
      s.(writer := WSeen(s.writer.data, FreeSpace(s.bufferSize, s.head, s.tail)))
    case DecideWrite =>
      s.(writer := if s.writer.free >= |s.writer.data| then WCopy(s.writer.data, s.tail, {})
                   else WSpin(s.writer.data))
    case SpinWrite =>
      s.(writer := if s.exit then WReturned(s.writer.data, false) else WWait(s.writer.data))
    case WriteByte(j) =>
      var at := Slot(s.bufferSize, s.writer.tail, |s.writer.data|, j);
      s.(buffer := s.buffer[at := s.writer.data[j]],
         writer := s.writer.(copied := s.writer.copied + {j}))
    case PublishTail =>
      s.(tail := Wrap32(s.writer.tail + |s.writer.data|),
         sent := s.sent + s.writer.data,
         writer := WReturned(s.writer.data, true))
    case ReturnWrite => s.(writer := WIdle)
    case CallRead(size) =>
      s.(reader := if size > s.bufferSize then RReturned([], false) else RWait(size))
    case LoadTail => s.(reader := RSeen(s.reader.size, Size(s.head, s.tail)))
    case DecideRead =>
      s.(reader := if s.reader.avail >= s.reader.size
                   then RCopy(s.reader.size, s.head, seq(s.reader.size, _ => 0), {})
                   else RSpin(s.reader.size))
    case SpinRead =>
      s.(reader := if s.exit then RReturned([], false) else RWait(s.reader.size))
    case ReadByte(j) =>
      var at := Slot(s.bufferSize, s.reader.head, s.reader.size, j);
      s.(reader := s.reader.(out := s.reader.out[j := s.buffer[at]], copied := s.reader.copied + {j}))
    case PublishHead =>
      s.(head := Wrap32(s.reader.head + s.reader.size),
         received := s.received + s.reader.out,
         reader := RReturned(s.reader.out, true))
    case ReturnRead => s.(reader := RIdle)
    case RaiseExit => s.(exit := true)
  }

  /** A run: any interleaving of the threads' steps from the freshly mapped ring. */
  ghost predicate IsRun(run: seq<Ring>, steps: seq<Step>) {
    && |run| == |steps| + 1
    && Init(run[0])
    && forall i | 0 <= i < |steps| :: Enabled(run[i], steps[i]) && run[i + 1] == Do(run[i], steps[i])
  }

  // ---- the invariant ----

  /** `k` modulo `n`, by repeated subtraction. */
  ghost function Cell(n: nat, k: nat): (c: nat)
    ensures n > 0 ==> c < n
    decreases k
  {
    if n == 0 then 0 else if k < n then k else Cell(n, k - n)
  }

  lemma {:induction false} CellIsRemainder(n: nat, k: nat)
    requires n > 0
    ensures Cell(n, k) == k % n
    decreases k
  {
    if k >= n {
      CellIsRemainder(n, k - n);
      var q := (k - n) / n;
      Distribute(n, q, 1);
      RemainderUnique(k, n, q + 1, (k - n) % n);
    }
  }

  ghost predicate WriterOk(s: Ring)
    requires |s.buffer| == s.bufferSize > 0
    requires |s.received| <= |s.sent|
  {
    match s.writer
    case WIdle => true
    case WWait(data) => |data| <= s.bufferSize
    case WSeen(data, free) =>
      |data| <= s.bufferSize && free + |s.sent| <= s.bufferSize + |s.received|
    case WSpin(data) => |data| <= s.bufferSize
    case WCopy(data, tail, copied) =>
      && tail == s.tail
      && |s.sent| + |data| <= |s.received| + s.bufferSize
      && forall j | j in copied :: j < |data| && s.buffer[Cell(s.bufferSize, |s.sent| + j)] == data[j]
    case WReturned(data, ok) => ok ==> |data| <= |s.sent| && data == s.sent[|s.sent| - |data|..]
  }

  ghost predicate ReaderOk(s: Ring)
    requires |s.received| <= |s.sent|
  {
    match s.reader
    case RIdle => true
    case RWait(size) => size <= s.bufferSize
    case RSeen(size, avail) => size <= s.bufferSize && |s.received| + avail <= |s.sent|
    case RSpin(size) => size <= s.bufferSize
    case RCopy(size, head, out, copied) =>
      && head == s.head && |out| == size
      && |s.received| + size <= |s.sent|
      && forall j | j in copied :: j < size && out[j] == s.sent[|s.received| + j]
    case RReturned(out, ok) => ok ==> |out| <= |s.received| && out == s.received[|s.received| - |out|..]
  }

  ghost predicate Inv(s: Ring) {
    && PowerOfTwo(s.bufferSize)
    && |s.buffer| == s.bufferSize > 0
    && s.received <= s.sent
    && |s.sent| - |s.received| <= s.bufferSize
    && s.tail == Wrap32(|s.sent|) && s.head == Wrap32(|s.received|)
    && (forall k | |s.received| <= k < |s.sent| :: s.buffer[Cell(s.bufferSize, k)] == s.sent[k])
    && WriterOk(s) && ReaderOk(s)
  }

  // ---- arithmetic of the circular buffer ----

  /** The split copy with its mask visits exactly the slots count, count+1, ... modulo
      the buffer size, although the counter it starts from has wrapped at 2^32. */
  lemma SlotIsModular(n: nat, count: nat, size: nat, j: nat)
    requires PowerOfTwo(n) && j < size <= n
    ensures n > 0 && Slot(n, Wrap32(count), size, j) == Cell(n, count + j)
  {
    CounterSlot(count, n);
    OffsetModular(n, count, j);
    CellIsRemainder(n, count + j);
  }

  lemma OffsetModular(n: nat, count: nat, j: nat)
    requires 0 < n && j < n
    ensures (count + j) % n == if count % n + j < n then count % n + j else count % n + j - n
  {
    var offset := count % n;
    var q := count / n;
    if offset + j < n {
      RemainderUnique(count + j, n, q, offset + j);
    } else {
      Distribute(n, q, 1);
      RemainderUnique(count + j, n, q + 1, offset + j - n);
    }
  }

  lemma SameSlot(n: nat, a: nat, b: nat)
    requires n > 0 && a <= b < a + n
    requires a % n == b % n
    ensures a == b
  {
    var qa, qb := a / n, b / n;
    assert b - a == n * qb - n * qa;
    if qb > qa {
      FactorGap(n, qa, qb);
    } else if qb < qa {
      FactorGap(n, qb, qa);
    }
  }

  lemma PublishedFreeSpace(s: Ring)
    requires Inv(s)
    ensures Size(s.head, s.tail) == |s.sent| - |s.received|
    ensures FreeSpace(s.bufferSize, s.head, s.tail) == s.bufferSize - (|s.sent| - |s.received|)
  {
    PowerOfTwoPositive(s.bufferSize);
    WrappedDistance(|s.sent|, |s.received|);
  }

  // ---- every step keeps the invariant ----

  lemma InitKeeps(s: Ring)
    requires Init(s)
    ensures Inv(s)
  {
    PowerOfTwoPositive(s.bufferSize);
  }

  lemma OtherSlot(n: nat, a: nat, b: nat)
    requires n > 0 && a < b < a + n
    ensures Cell(n, a) != Cell(n, b)
  {
    CellIsRemainder(n, a);
    CellIsRemainder(n, b);
    if a % n == b % n { SameSlot(n, a, b); }
  }

  /** The byte being stored lands on no published and no other copied byte. */
  lemma StoreMisses(s: Ring, j: nat, k: nat)
    requires Inv(s) && s.writer.WCopy? && j < |s.writer.data|
    requires |s.received| <= k < |s.sent| + |s.writer.data| && k != |s.sent| + j
    ensures Cell(s.bufferSize, k) != Cell(s.bufferSize, |s.sent| + j)
  {
    if k < |s.sent| + j { OtherSlot(s.bufferSize, k, |s.sent| + j); }
    else { OtherSlot(s.bufferSize, |s.sent| + j, k); }
  }

  lemma StoreMissesSent(s: Ring, j: nat)
    requires Inv(s) && s.writer.WCopy? && j < |s.writer.data|
    ensures forall k | |s.received| <= k < |s.sent| :: Cell(s.bufferSize, k) != Cell(s.bufferSize, |s.sent| + j)
  {
    forall k | |s.received| <= k < |s.sent|
      ensures Cell(s.bufferSize, k) != Cell(s.bufferSize, |s.sent| + j)
    {
      StoreMisses(s, j, k);
    }
  }

  lemma StoreMissesCopied(s: Ring, j: nat)
    requires Inv(s) && s.writer.WCopy? && j < |s.writer.data| && j !in s.writer.copied
    ensures forall i | i in s.writer.copied :: Cell(s.bufferSize, |s.sent| + i) != Cell(s.bufferSize, |s.sent| + j)
  {
    forall i | i in s.writer.copied
      ensures Cell(s.bufferSize, |s.sent| + i) != Cell(s.bufferSize, |s.sent| + j)
    {
      StoreMisses(s, j, |s.sent| + i);
    }
  }

  /** Where the byte goes, and that every other byte that matters stays. */
  lemma StoredByte(s: Ring, j: nat)
    requires Inv(s) && Enabled(s, WriteByte(j))
    ensures var at := Cell(s.bufferSize, |s.sent| + j);
      && Do(s, WriteByte(j)).buffer == s.buffer[at := s.writer.data[j]]
      && (forall k | |s.received| <= k < |s.sent| :: Cell(s.bufferSize, k) != at)
      && (forall i | i in s.writer.copied :: Cell(s.bufferSize, |s.sent| + i) != at)
  {
    SlotIsModular(s.bufferSize, |s.sent|, |s.writer.data|, j);
    StoreMissesSent(s, j);
    StoreMissesCopied(s, j);
  }

  lemma WriteByteKeeps(s: Ring, j: nat)
    requires Inv(s) && Enabled(s, WriteByte(j))
    ensures Inv(Do(s, WriteByte(j)))
  {
    StoredByte(s, j);
    StoredKeeps(s, Do(s, WriteByte(j)), j, Cell(s.bufferSize, |s.sent| + j));
  }

  lemma StoredKeeps(s: Ring, s': Ring, j: nat, at: nat)
    requires Inv(s) && s.writer.WCopy? && j < |s.writer.data| && at < |s.buffer|
        && at == Cell(s.bufferSize, |s.sent| + j)
    requires s' == s.(buffer := s.buffer[at := s.writer.data[j]], writer := s.writer.(copied := s.writer.copied + {j}))
    requires forall k | |s.received| <= k < |s.sent| :: Cell(s.bufferSize, k) != at
    requires forall i | i in s.writer.copied :: Cell(s.bufferSize, |s.sent| + i) != at
    ensures Inv(s')
  {
    StoredForWriter(s, s', j, at);
    assert ReaderOk(s');
  }

  lemma StoredForWriter(s: Ring, s': Ring, j: nat, at: nat)
    requires |s.buffer| == s.bufferSize > 0 && |s.received| <= |s.sent| && WriterOk(s)
    requires s.writer.WCopy? && j < |s.writer.data| && at < |s.buffer| && at == Cell(s.bufferSize, |s.sent| + j)
    requires s' == s.(buffer := s.buffer[at := s.writer.data[j]], writer := s.writer.(copied := s.writer.copied + {j}))
    requires forall i | i in s.writer.copied :: Cell(s.bufferSize, |s.sent| + i) != at
    ensures WriterOk(s')
  {}

  lemma PublishTailKeeps(s: Ring)
    requires Inv(s) && Enabled(s, PublishTail)
    ensures Inv(Do(s, PublishTail))
  {
    WrapOfWrapped(|s.sent|, |s.writer.data|);
    PublishedKeeps(s, Do(s, PublishTail), s.writer.data);
  }

  lemma PublishedKeeps(s: Ring, s': Ring, data: seq<byte>)
    requires Inv(s) && Enabled(s, PublishTail) && data == s.writer.data
    requires s' == s.(tail := Wrap32(|s.sent| + |data|), sent := s.sent + data, writer := WReturned(data, true))
    ensures Inv(s')
  {
    forall k | |s.received| <= k < |s'.sent|
      ensures s'.buffer[Cell(s.bufferSize, k)] == s'.sent[k]
    {
    }
    ReaderKeepsAhead(s, s');
    assert WriterOk(s');
  }

  /** Bytes that are published behind those the reader is after do not concern it. */
  lemma ReaderKeepsAhead(s: Ring, s': Ring)
    requires |s.received| <= |s.sent| && ReaderOk(s)
    requires s'.reader == s.reader && s'.received == s.received && s'.head == s.head && s'.bufferSize == s.bufferSize
    requires s.sent <= s'.sent
    ensures ReaderOk(s')
  {}

  lemma ReadByteKeeps(s: Ring, j: nat)
    requires Inv(s) && Enabled(s, ReadByte(j))
    ensures Inv(Do(s, ReadByte(j)))
  {
    SlotIsModular(s.bufferSize, |s.received|, s.reader.size, j);
    FetchedKeeps(s, Do(s, ReadByte(j)), j);
  }

  lemma FetchedKeeps(s: Ring, s': Ring, j: nat)
    requires Inv(s) && s.reader.RCopy? && j < s.reader.size && |s.reader.out| == s.reader.size
    requires s' == s.(reader := s.reader.(out := s.reader.out[j := s.buffer[Cell(s.bufferSize, |s.received| + j)]],
                                          copied := s.reader.copied + {j}))
    ensures Inv(s')
  {
    assert s.buffer[Cell(s.bufferSize, |s.received| + j)] == s.sent[|s.received| + j];
    assert WriterOk(s');
    assert ReaderOk(s');
  }

  lemma PublishHeadKeeps(s: Ring)
    requires Inv(s) && Enabled(s, PublishHead)
    ensures Inv(Do(s, PublishHead))
  {
    var s' := Do(s, PublishHead);
    WrapOfWrapped(|s.received|, s.reader.size);
    assert WriterOk(s');
    assert ReaderOk(s');
  }

  lemma LoadHeadKeeps(s: Ring)
    requires Inv(s) && Enabled(s, LoadHead)
    ensures Inv(Do(s, LoadHead))
  {
    PublishedFreeSpace(s);
    assert ReaderOk(Do(s, LoadHead));
  }

  lemma LoadTailKeeps(s: Ring)
    requires Inv(s) && Enabled(s, LoadTail)
    ensures Inv(Do(s, LoadTail))
  {
    PublishedFreeSpace(s);
    assert WriterOk(Do(s, LoadTail));
  }

  lemma WriterControlKeeps(s: Ring, step: Step)
    requires Inv(s) && Enabled(s, step)
    requires step.CallWrite? || step.DecideWrite? || step.SpinWrite? || step.ReturnWrite? || step.RaiseExit?
    ensures Inv(Do(s, step))
  {
    assert ReaderOk(Do(s, step));
  }

  lemma ReaderControlKeeps(s: Ring, step: Step)
    requires Inv(s) && Enabled(s, step)
    requires step.CallRead? || step.DecideRead? || step.SpinRead? || step.ReturnRead?
    ensures Inv(Do(s, step))
  {
    assert WriterOk(Do(s, step));
  }

  lemma StepKeeps(s: Ring, step: Step)
    requires Inv(s) && Enabled(s, step)
    ensures Inv(Do(s, step))
  {
    match step
    case WriteByte(j) => WriteByteKeeps(s, j);
    case PublishTail => PublishTailKeeps(s);
    case ReadByte(j) => ReadByteKeeps(s, j);
    case PublishHead => PublishHeadKeeps(s);
    case LoadHead => LoadHeadKeeps(s);
    case LoadTail => LoadTailKeeps(s);
    case CallRead(_) => ReaderControlKeeps(s, step);
    case DecideRead => ReaderControlKeeps(s, step);
    case SpinRead => ReaderControlKeeps(s, step);
    case ReturnRead => ReaderControlKeeps(s, step);
    case _ => WriterControlKeeps(s, step);
  }

  lemma {:induction false} RunKeeps(run: seq<Ring>, steps: seq<Step>, i: nat)
    requires IsRun(run, steps) && i < |run|
    ensures Inv(run[i])
  {
    if i == 0 {
      InitKeeps(run[0]);
    } else {
      RunKeeps(run, steps, i - 1);
      StepKeeps(run[i - 1], steps[i - 1]);
    }
  }

  // ---- what the ring promises ----

  /** The slots an ongoing copy of the writer, or of the reader, may touch, and the slots
      that hold published bytes nobody has consumed. */
  ghost function WriterRegion(s: Ring): set<int>
    requires s.bufferSize > 0
  {
    if s.writer.WCopy? then
      set j | 0 <= j < |s.writer.data| :: Slot(s.bufferSize, s.writer.tail, |s.writer.data|, j)
    else {}
  }

  ghost function ReaderRegion(s: Ring): set<int>
    requires s.bufferSize > 0
  {
    if s.reader.RCopy? then
      set j | 0 <= j < s.reader.size :: Slot(s.bufferSize, s.reader.head, s.reader.size, j)
    else {}
  }

  ghost function UnreadRegion(s: Ring): set<int>
    requires s.bufferSize > 0
  {
    set k | |s.received| <= k < |s.sent| :: k % s.bufferSize
  }

  lemma RegionsDisjoint(s: Ring)
    requires Inv(s)
    ensures WriterRegion(s) !! UnreadRegion(s)
    ensures ReaderRegion(s) <= UnreadRegion(s)
    ensures forall at | at in WriterRegion(s) + ReaderRegion(s) :: 0 <= at < |s.buffer|
  {
    var n := s.bufferSize;
    forall at | at in WriterRegion(s)
      ensures at !in UnreadRegion(s) && 0 <= at < n
    {
      var size := |s.writer.data|;
      var j :| 0 <= j < size && at == Slot(n, s.writer.tail, size, j);
      SlotIsModular(n, |s.sent|, size, j);
      if at in UnreadRegion(s) {
        var k :| |s.received| <= k < |s.sent| && at == k % n;
        CellIsRemainder(n, k);
        StoreMisses(s, j, k);
      }
    }
    forall at | at in ReaderRegion(s)
      ensures at in UnreadRegion(s) && 0 <= at < n
    {
      var size := s.reader.size;
      var j :| 0 <= j < size && at == Slot(n, s.reader.head, size, j);
      SlotIsModular(n, |s.received|, size, j);
      var k := |s.received| + j;
      CellIsRemainder(n, k);
      assert |s.received| <= k < |s.sent| && at == k % n;
    }
  }

  /** Race freedom, over every interleaving: the writer never copies into a slot that is
      published and unread, nor into one the reader is copying from, and both stay inside
      the buffer. */
  lemma RaceFree(run: seq<Ring>, steps: seq<Step>, i: nat)
    requires IsRun(run, steps) && i < |run|
    ensures run[i].bufferSize > 0
    ensures WriterRegion(run[i]) !! UnreadRegion(run[i])
    ensures WriterRegion(run[i]) !! ReaderRegion(run[i])
    ensures forall at | at in WriterRegion(run[i]) + ReaderRegion(run[i]) :: 0 <= at < |run[i].buffer|
  {
    RunKeeps(run, steps, i);
    RegionsDisjoint(run[i]);
  }

  // ---- reading in place ----

  /** The byte at place `j` of the region the reader has found and not given back. */
  ghost function InPlace(s: Ring, j: nat): byte
    requires Inv(s) && s.reader.RCopy? && j < s.reader.size
  {
    SlotIsModular(s.bufferSize, |s.received|, s.reader.size, j);
    s.buffer[Slot(s.bufferSize, s.reader.head, s.reader.size, j)]
  }

  lemma InPlaceIsNext(s: Ring, j: nat)
    requires Inv(s) && s.reader.RCopy? && j < s.reader.size
    ensures |s.received| + j < |s.sent| && InPlace(s, j) == s.sent[|s.received| + j]
  {
    SlotIsModular(s.bufferSize, |s.received|, s.reader.size, j);
  }

  lemma {:induction false} HoldStays(run: seq<Ring>, steps: seq<Step>, i: nat, k: nat)
    requires IsRun(run, steps) && i <= k < |run| && forall m | i <= m <= k :: run[m].reader.RCopy?
    ensures run[k].reader.size == run[i].reader.size
    ensures run[k].received == run[i].received && run[i].sent <= run[k].sent
    decreases k
  {
    if i < k {
      HoldStays(run, steps, i, k - 1);
      assert run[k] == Do(run[k - 1], steps[k - 1]) && run[k].reader.RCopy?;
    }
  }

  /** A reader that does not copy its region out, as RING_READ_BEGIN allows, but looks at it in
      place until RING_READ_END gives it back: at every moment from `i` to `k`, whatever the
      writer stores and publishes meanwhile, each place holds the same byte, the one whose turn
      it is in the stream. */
  lemma InPlaceStays(run: seq<Ring>, steps: seq<Step>, i: nat, k: nat, j: nat)
    requires IsRun(run, steps) && i <= k < |run| && forall m | i <= m <= k :: run[m].reader.RCopy?
    requires j < run[i].reader.size
    ensures Inv(run[i]) && Inv(run[k]) && run[k].reader.size == run[i].reader.size
    ensures |run[i].received| + j < |run[i].sent|
    ensures InPlace(run[k], j) == InPlace(run[i], j) == run[i].sent[|run[i].received| + j]
  {
    RunKeeps(run, steps, i);
    RunKeeps(run, steps, k);
    HoldStays(run, steps, i, k);
    InPlaceIsNext(run[i], j);
    InPlaceIsNext(run[k], j);
  }

  /** What a finished read holds and has not handed to its caller yet. */
  ghost function Held(s: Ring): seq<byte> {
    if s.reader.RReturned? && s.reader.ok then s.reader.out else []
  }

  ghost function GivenBy(s: Ring, step: Step): seq<byte> {
    if step == PublishTail && s.writer.WCopy? then s.writer.data else []
  }

  ghost function TakenBy(s: Ring, step: Step): seq<byte> {
    if step == ReturnRead then Held(s) else []
  }

  /** The stream the calls have carried, read off the steps of a run and not off the
      histories: what each successful write was given, and what each read that returned
      true handed to its caller, in order. */
  ghost function Given(run: seq<Ring>, steps: seq<Step>): seq<byte>
    requires |run| == |steps| + 1
  {
    if steps == [] then []
    else
      var i := |steps| - 1;
      Given(run[..i + 1], steps[..i]) + GivenBy(run[i], steps[i])
  }

  ghost function Taken(run: seq<Ring>, steps: seq<Step>): seq<byte>
    requires |run| == |steps| + 1
  {
    if steps == [] then []
    else
      var i := |steps| - 1;
      Taken(run[..i + 1], steps[..i]) + TakenBy(run[i], steps[i])
  }

  lemma HistoryStep(s: Ring, step: Step, taken: seq<byte>)
    requires Enabled(s, step)
    requires s.received == taken + Held(s)
    ensures Do(s, step).sent == s.sent + GivenBy(s, step)
    ensures Do(s, step).received == (taken + TakenBy(s, step)) + Held(Do(s, step))
  {
    if step == PublishHead {
      assert Held(s) == [] && taken == s.received;
    }
  }

  lemma {:induction false} HistoriesAreTheCalls(run: seq<Ring>, steps: seq<Step>)
    requires IsRun(run, steps)
    ensures Given(run, steps) == run[|steps|].sent
    ensures run[|steps|].received == Taken(run, steps) + Held(run[|steps|])
    decreases |steps|
  {
    if steps != [] {
      var i := |steps| - 1;
      var run', steps' := run[..i + 1], steps[..i];
      assert IsRun(run', steps');
      HistoriesAreTheCalls(run', steps');
      HistoryStep(run[i], steps[i], Taken(run', steps'));
    }
  }

  /** The ring is a bounded first-in first-out byte stream over every interleaving: the
      bytes reads have returned are a prefix of the bytes writes have published, across any
      number of wraps of the two counters; the uint32_t difference of the counters is the
      exact fill, and it never exceeds the buffer. */
  lemma ReadsArePrefixOfWrites(run: seq<Ring>, steps: seq<Step>)
    requires IsRun(run, steps)
    ensures Taken(run, steps) <= Given(run, steps)
    ensures var last := run[|run| - 1];
            && Size(last.head, last.tail) == |last.sent| - |last.received| <= last.bufferSize
            && FreeSpace(last.bufferSize, last.head, last.tail) == last.bufferSize - Size(last.head, last.tail)
  {
    RunKeeps(run, steps, |steps|);
    HistoriesAreTheCalls(run, steps);
    PublishedFreeSpace(run[|steps|]);
  }
}
