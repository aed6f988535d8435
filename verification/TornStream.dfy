/** Why the link's promise needs its condition. After EXIT has cut one side off from a payload
    that the other side did transfer, the two disagree about where the next message starts:
    from every such state some continuation, without any further cut, delivers a wrong message,
    unless a ring of eight bytes is left with less than a header, and then both sides get
    stuck. Where both or neither were cut no continuation does either. */
module TornStream {
  import opened Bits
  import opened RingProtocol
  import opened Framing

  ghost predicate Path(s: Link, steps: seq<LinkStep>, t: Link)
    decreases |steps|
  {
    if steps == [] then s == t
    else LinkEnabled(s, steps[0]) && Path(LinkDo(s, steps[0]), steps[1..], t)
  }

  lemma PathStarts(s: Link, step: LinkStep, steps: seq<LinkStep>, t: Link)
    requires LinkEnabled(s, step) && Path(LinkDo(s, step), steps, t)
    ensures Path(s, [step] + steps, t)
  {
    assert ([step] + steps)[1..] == steps;
  }

  lemma PathNext(s: Link, xs: seq<LinkStep>, t: Link) returns (next: Link)
    requires xs != [] && Path(s, xs, t)
    ensures LinkEnabled(s, xs[0]) && next == LinkDo(s, xs[0]) && Path(next, xs[1..], t)
  {
    next := LinkDo(s, xs[0]);
  }

  lemma PathBefore(s: Link, xs: seq<LinkStep>, ys: seq<LinkStep>, next: Link, u: Link)
    requires xs != [] && LinkEnabled(s, xs[0]) && next == LinkDo(s, xs[0]) && Path(next, xs[1..] + ys, u)
    ensures Path(s, xs + ys, u)
  {
    assert xs + ys == [xs[0]] + (xs[1..] + ys);
    PathStarts(s, xs[0], xs[1..] + ys, u);
  }

  lemma {:induction false} PathConcat(s: Link, xs: seq<LinkStep>, t: Link, ys: seq<LinkStep>, u: Link)
    requires Path(s, xs, t) && Path(t, ys, u)
    ensures Path(s, xs + ys, u)
    decreases |xs|
  {
    if xs == [] {
      assert xs + ys == ys;
    } else {
      var next := PathNext(s, xs, t);
      PathConcat(next, xs[1..], t, ys, u);
      PathBefore(s, xs, ys, next, u);
    }
  }

  /** Some path leads from s to t. */
  ghost predicate Leads(s: Link, t: Link) {
    exists steps :: Path(s, steps, t)
  }

  lemma LeadsNowhere(s: Link)
    ensures Leads(s, s)
  {
    assert Path(s, [], s);
  }

  lemma LeadsBy(s: Link, t: Link, step: LinkStep) returns (u: Link)
    requires Leads(s, t) && LinkEnabled(t, step)
    ensures u == LinkDo(t, step) && Leads(s, u)
    ensures Inv(t.ring) ==> Inv(u.ring)
  {
    u := LinkDo(t, step);
    assert Path(u, [step][1..], u);
    assert Path(t, [step], u);
    LeadsTo(s, t, u);
    if Inv(t.ring) { RingInvKeeps(t, step); }
  }

  lemma LeadsTo(s: Link, t: Link, u: Link)
    requires Leads(s, t) && Leads(t, u)
    ensures Leads(s, u)
  {
    var xs :| Path(s, xs, t);
    var ys :| Path(t, ys, u);
    PathConcat(s, xs, t, ys, u);
  }

  /** A path from a start state is a run. */
  lemma {:induction false} PathIsRun(s: Link, steps: seq<LinkStep>, t: Link) returns (run: seq<Link>)
    requires LinkInit(s) && Path(s, steps, t)
    ensures IsLinkRun(run, steps) && run[|steps|] == t
  {
    run := States(s, steps, t);
  }

  lemma {:induction false} States(s: Link, steps: seq<LinkStep>, t: Link) returns (run: seq<Link>)
    requires Path(s, steps, t)
    ensures |run| == |steps| + 1 && run[0] == s && run[|steps|] == t
    ensures forall i | 0 <= i < |steps| :: LinkEnabled(run[i], steps[i]) && run[i + 1] == LinkDo(run[i], steps[i])
    decreases |steps|
  {
    if steps == [] {
      run := [s];
    } else {
      var rest := States(LinkDo(s, steps[0]), steps[1..], t);
      run := [s] + rest;
    }
  }

  // ---- a whole write and a whole read, done without interruption ----

  lemma CopyOneIn(s: Link, j: nat) returns (t: Link)
    requires Inv(s.ring) && s.ring.writer.WCopy? && j < |s.ring.writer.data| && j !in s.ring.writer.copied
    ensures Leads(s, t) && Inv(t.ring)
    ensures t == s.(ring := s.ring.(buffer := t.ring.buffer,
                                    writer := s.ring.writer.(copied := s.ring.writer.copied + {j})))
  {
    LeadsNowhere(s);
    WriterWindow(s.ring);
    SlotIsModular(s.ring.bufferSize, |s.ring.sent|, |s.ring.writer.data|, j);
    t := LeadsBy(s, s, RingStep(WriteByte(j)));
  }

  lemma {:induction false} CopyIn(s: Link, k: nat) returns (t: Link)
    requires Inv(s.ring) && s.ring.writer.WCopy? && k <= |s.ring.writer.data|
    requires forall j: nat :: j in s.ring.writer.copied <==> j < |s.ring.writer.data| - k
    ensures Leads(s, t) && Inv(t.ring)
    ensures t.ring.writer.WCopy? && AllCopied(t.ring.writer.copied, |s.ring.writer.data|)
    ensures t == s.(ring := s.ring.(buffer := t.ring.buffer, writer := s.ring.writer.(copied := t.ring.writer.copied)))
    decreases k
  {
    LeadsNowhere(s);
    t := s;
    if k > 0 {
      var s' := CopyOneIn(s, |s.ring.writer.data| - k);
      t := CopyIn(s', k - 1);
      LeadsTo(s, s', t);
    }
  }

  lemma WriterWindow(r: Ring)
    requires Inv(r) && r.writer.WCopy?
    ensures |r.writer.data| <= r.bufferSize && r.writer.tail == Wrap32(|r.sent|)
  {
  }

  lemma ReaderWindow(r: Ring)
    requires Inv(r) && r.reader.RCopy?
    ensures r.reader.size <= r.bufferSize && r.reader.head == Wrap32(|r.received|)
    ensures |r.reader.out| == r.reader.size && |r.received| + r.reader.size <= |r.sent|
    ensures forall j | j in r.reader.copied :: j < r.reader.size && r.reader.out[j] == r.sent[|r.received| + j]
  {
  }

  lemma WholeWrite(s: Link) returns (t: Link)
    requires Inv(s.ring) && s.ring.writer.WWait?
    requires |s.ring.sent| + |s.ring.writer.data| <= |s.ring.received| + s.ring.bufferSize
    ensures Leads(s, t) && Inv(t.ring)
    ensures t == s.(ring := t.ring, log := if s.sender.SHeader? then s.log + [s.sender.m] else s.log)
    ensures t.ring == s.ring.(tail := t.ring.tail, buffer := t.ring.buffer, sent := s.ring.sent + s.ring.writer.data,
                              writer := WReturned(s.ring.writer.data, true))
  {
    LeadsNowhere(s);
    PublishedFreeSpace(s.ring);
    var a := LeadsBy(s, s, RingStep(LoadHead));
    var b := LeadsBy(s, a, RingStep(DecideWrite));
    var c := CopyIn(b, |s.ring.writer.data|);
    LeadsTo(s, b, c);
    t := LeadsBy(s, c, RingStep(PublishTail));
  }

  lemma CopyOneOut(s: Link, j: nat) returns (t: Link)
    requires Inv(s.ring) && s.ring.reader.RCopy? && j < s.ring.reader.size && j !in s.ring.reader.copied
    ensures Leads(s, t) && Inv(t.ring)
    ensures t.ring.reader.RCopy? && t.ring.reader.copied == s.ring.reader.copied + {j}
    ensures t == s.(ring := s.ring.(reader := t.ring.reader)) && t.ring.reader.size == s.ring.reader.size
  {
    LeadsNowhere(s);
    ReaderWindow(s.ring);
    SlotIsModular(s.ring.bufferSize, |s.ring.received|, s.ring.reader.size, j);
    t := LeadsBy(s, s, RingStep(ReadByte(j)));
  }

  lemma {:induction false} CopyOut(s: Link, k: nat) returns (t: Link)
    requires Inv(s.ring) && s.ring.reader.RCopy? && k <= s.ring.reader.size
    requires forall j: nat :: j in s.ring.reader.copied <==> j < s.ring.reader.size - k
    ensures Leads(s, t) && Inv(t.ring)
    ensures t.ring.reader.RCopy? && AllCopied(t.ring.reader.copied, s.ring.reader.size)
    ensures t == s.(ring := s.ring.(reader := t.ring.reader)) && t.ring.reader.size == s.ring.reader.size
    decreases k
  {
    LeadsNowhere(s);
    t := s;
    if k > 0 {
      var s' := CopyOneOut(s, s.ring.reader.size - k);
      t := CopyOut(s', k - 1);
      LeadsTo(s, s', t);
    }
  }

  lemma StartRead(s: Link) returns (t: Link)
    requires Inv(s.ring) && s.ring.reader.RWait?
    requires |s.ring.received| + s.ring.reader.size <= |s.ring.sent|
    ensures Leads(s, t) && Inv(t.ring)
    ensures t == s.(ring := s.ring.(reader := t.ring.reader))
    ensures t.ring.reader.RCopy? && t.ring.reader.copied == {} && t.ring.reader.size == s.ring.reader.size
  {
    LeadsNowhere(s);
    PublishedFreeSpace(s.ring);
    var a := LeadsBy(s, s, RingStep(LoadTail));
    t := LeadsBy(s, a, RingStep(DecideRead));
  }

  lemma WholeRead(s: Link) returns (t: Link)
    requires Inv(s.ring) && s.ring.reader.RWait?
    requires |s.ring.received| + s.ring.reader.size <= |s.ring.sent|
    ensures Leads(s, t) && Inv(t.ring)
    ensures t == s.(ring := t.ring)
    ensures var out := s.ring.sent[|s.ring.received|..|s.ring.received| + s.ring.reader.size];
      t.ring == s.ring.(head := t.ring.head, received := s.ring.received + out, reader := RReturned(out, true))
  {
    var b := StartRead(s);
    var c := CopyOut(b, s.ring.reader.size);
    LeadsTo(s, b, c);
    ReaderWindow(c.ring);
    assert c.ring.reader.out == s.ring.sent[|s.ring.received|..|s.ring.received| + s.ring.reader.size];
    t := LeadsBy(s, c, RingStep(PublishHead));
  }

  // ---- whole calls of vt_send and vt_recv ----

  function Unread(s: Link): int {
    |s.ring.sent| - |s.ring.received|
  }

  ghost predicate SenderRests(s: Link) {
    s.sender.SIdle? && s.ring.writer.WIdle?
  }

  ghost predicate ReceiverRests(s: Link) {
    s.receiver.VIdle? && s.ring.reader.RIdle?
  }

  lemma SendHeaderOf(s: Link, m: Message) returns (t: Link)
    requires Inv(s.ring) && SenderRests(s) && Sendable(m) && s.ring.bufferSize >= HEADER_SIZE
    requires Unread(s) + HEADER_SIZE <= s.ring.bufferSize
    ensures Leads(s, t) && Inv(t.ring)
    ensures t == s.(ring := t.ring, sender := SHeader(m), calls := t.calls, log := s.log + [m])
    ensures t.ring == s.ring.(tail := t.ring.tail, buffer := t.ring.buffer, sent := s.ring.sent + Header(m),
                              writer := WReturned(Header(m), true))
  {
    LeadsNowhere(s);
    var a := LeadsBy(s, s, StartSend(m));
    t := WholeWrite(a);
    LeadsTo(s, a, t);
  }

  /** A call of vt_send that finds room for header and payload. */
  lemma SendWhole(s: Link, m: Message) returns (t: Link)
    requires Inv(s.ring) && SenderRests(s) && Sendable(m) && s.ring.bufferSize >= HEADER_SIZE
    requires Unread(s) + HEADER_SIZE + |m.payload| <= s.ring.bufferSize
    ensures Leads(s, t) && Inv(t.ring) && SenderRests(t)
    ensures t == s.(ring := t.ring, calls := t.calls, log := s.log + [m])
    ensures t.ring == s.ring.(tail := t.ring.tail, buffer := t.ring.buffer,
                              sent := s.ring.sent + Header(m) + m.payload)
  {
    var a := SendHeaderOf(s, m);
    var b := LeadsBy(s, a, HeaderWritten);
    if m.payload != [] {
      var c := WholeWrite(b);
      LeadsTo(s, b, c);
      b := LeadsBy(s, c, PayloadWritten);
    } else {
      assert s.ring.sent + Header(m) + m.payload == s.ring.sent + Header(m);
    }
    t := LeadsBy(s, b, FinishSend);
  }

  /** The bytes vt_recv takes for a header. */
  function Taken(s: Link): (b: seq<byte>)
    requires Unread(s) >= HEADER_SIZE
    ensures |b| == HEADER_SIZE
  {
    s.ring.sent[|s.ring.received|..|s.ring.received| + HEADER_SIZE]
  }

  lemma AskForHeader(s: Link) returns (t: Link)
    requires Inv(s.ring) && ReceiverRests(s) && s.ring.bufferSize >= HEADER_SIZE
    ensures Leads(s, t) && Inv(t.ring)
    ensures t == s.(receiver := VHeader, ring := s.ring.(reader := RWait(HEADER_SIZE)))
  {
    LeadsNowhere(s);
    t := LeadsBy(s, s, StartRecv);
  }

  lemma ReadHeader(s: Link) returns (t: Link)
    requires Inv(s.ring) && ReceiverRests(s) && s.ring.bufferSize >= HEADER_SIZE && Unread(s) >= HEADER_SIZE
    ensures Leads(s, t) && Inv(t.ring)
    ensures t == s.(receiver := VHeader, ring := t.ring)
    ensures t.ring == s.ring.(head := t.ring.head, received := s.ring.received + Taken(s),
                              reader := RReturned(Taken(s), true))
  {
    var a := AskForHeader(s);
    t := WholeRead(a);
    LeadsTo(s, a, t);
  }

  /** A header alone ends the call. */
  lemma TakeAlone(s: Link) returns (t: Link)
    requires Inv(s.ring) && s.receiver.VHeader? && s.ring.reader.RReturned? && s.ring.reader.ok
    requires |s.ring.reader.out| == HEADER_SIZE && DecodeInt(s.ring.reader.out[4..]) <= 0
    ensures Leads(s, t) && Inv(t.ring)
    ensures t == s.(receiver := VIdle, ring := s.ring.(reader := RIdle),
                    outcomes := s.outcomes + [Got(Message(DecodeInt(s.ring.reader.out[..4]), []))])
  {
    LeadsNowhere(s);
    var a := LeadsBy(s, s, HeaderRead);
    t := LeadsBy(s, a, FinishRecv);
  }

  /** A payload that exceeds the ring is refused at once. */
  lemma TakeRefused(s: Link) returns (t: Link)
    requires Inv(s.ring) && s.receiver.VHeader? && s.ring.reader.RReturned? && s.ring.reader.ok
    requires |s.ring.reader.out| == HEADER_SIZE && DecodeInt(s.ring.reader.out[4..]) > s.ring.bufferSize
    ensures Leads(s, t) && Inv(t.ring)
    ensures t == s.(receiver := VIdle, ring := s.ring.(reader := RIdle), outcomes := s.outcomes + [Lost])
  {
    LeadsNowhere(s);
    var a := LeadsBy(s, s, HeaderRead);
    var b := LeadsBy(s, a, PayloadRead);
    t := LeadsBy(s, b, FinishRecv);
  }

  lemma TakeSize(s: Link) returns (t: Link)
    requires Inv(s.ring) && s.receiver.VHeader? && s.ring.reader.RReturned? && s.ring.reader.ok
    requires |s.ring.reader.out| == HEADER_SIZE && 0 < DecodeInt(s.ring.reader.out[4..]) <= s.ring.bufferSize
    ensures Leads(s, t) && Inv(t.ring)
    ensures var code, size := DecodeInt(s.ring.reader.out[..4]), DecodeInt(s.ring.reader.out[4..]);
      t == s.(receiver := VPayload(code, size), ring := s.ring.(reader := RWait(size)))
  {
    LeadsNowhere(s);
    t := LeadsBy(s, s, HeaderRead);
  }

  /** What vt_recv makes of any eight bytes. */
  lemma TakeHeader(s: Link) returns (t: Link)
    requires Inv(s.ring) && ReceiverRests(s) && s.ring.bufferSize >= HEADER_SIZE && Unread(s) >= HEADER_SIZE
    ensures Leads(s, t) && Inv(t.ring)
    ensures t == s.(receiver := t.receiver, ring := t.ring, outcomes := t.outcomes)
    ensures t.ring == s.ring.(head := t.ring.head, received := s.ring.received + Taken(s), reader := t.ring.reader)
    ensures var code, size := DecodeInt(Taken(s)[..4]), DecodeInt(Taken(s)[4..]);
      if 0 < size <= s.ring.bufferSize then
        t.receiver == VPayload(code, size) && t.ring.reader == RWait(size) && t.outcomes == s.outcomes
      else
        ReceiverRests(t) && t.outcomes == s.outcomes + [if size <= 0 then Got(Message(code, [])) else Lost]
  {
    var a := ReadHeader(s);
    var size := DecodeInt(Taken(s)[4..]);
    if size <= 0 {
      t := TakeAlone(a);
    } else if size > s.ring.bufferSize {
      t := TakeRefused(a);
    } else {
      t := TakeSize(a);
    }
    LeadsTo(s, a, t);
  }

  lemma PayloadReturned(s: Link) returns (t: Link)
    requires Inv(s.ring) && s.receiver.VPayload? && s.ring.reader.RReturned? && s.ring.reader.ok
    ensures Leads(s, t) && Inv(t.ring)
    ensures t == s.(receiver := VIdle, ring := s.ring.(reader := RIdle),
                    outcomes := s.outcomes + [Got(Message(s.receiver.code, s.ring.reader.out))])
  {
    LeadsNowhere(s);
    var a := LeadsBy(s, s, PayloadRead);
    t := LeadsBy(s, a, FinishRecv);
  }

  lemma TakePayload(s: Link) returns (t: Link)
    requires Inv(s.ring) && s.receiver.VPayload? && s.ring.reader == RWait(s.receiver.size)
    requires Unread(s) >= s.receiver.size
    ensures Leads(s, t) && Inv(t.ring) && ReceiverRests(t)
    ensures var out := s.ring.sent[|s.ring.received|..|s.ring.received| + s.receiver.size];
      && t == s.(receiver := VIdle, ring := t.ring, outcomes := s.outcomes + [Got(Message(s.receiver.code, out))])
      && t.ring == s.ring.(head := t.ring.head, received := s.ring.received + out, reader := RIdle)
  {
    var a := WholeRead(s);
    t := PayloadReturned(a);
    LeadsTo(s, a, t);
  }

  // ---- what goes wrong when the lengths do not agree ----

  /** What the link must not do: deliver something else than was sent, or get stuck. */
  ghost predicate Wrong(s: Link) {
    !Right(s) || BothBlocked(s)
  }

  predicate SameCutSets(s: Link, t: Link) {
    t.cutSends == s.cutSends && t.cutReads == s.cutReads
  }

  /** A state in which a continuation can be played out: the sender rests and the ring is sound. */
  ghost predicate Playable(s: Link) {
    && Inv(s.ring) && s.ring.bufferSize >= HEADER_SIZE && SenderRests(s)
    && forall i | i in s.cutReads :: 0 <= i < |s.outcomes|
  }

  /** The receiver waits for more than there is, and there is no room for another header. */
  lemma Stuck(s: Link) returns (t: Link)
    requires Playable(s) && s.ring.reader.RWait? && Unread(s) < s.ring.reader.size
    requires s.ring.bufferSize < Unread(s) + HEADER_SIZE
    ensures Leads(s, t) && SameCutSets(s, t) && BothBlocked(t)
  {
    LeadsNowhere(s);
    PublishedFreeSpace(s.ring);
    t := LeadsBy(s, s, StartSend(Message(0, [])));
  }

  /** `c` tells the header of the next message from the payload that it would be taken for. */
  ghost predicate Telling(s: Link, size: nat, c: int) {
    var k := |s.outcomes|;
    && 0 <= c <= 1
    && (k < |s.log| && |s.log[k].payload| == size > 0 ==> Unread(s) == 0 && s.log[k].payload[0] != c)
  }

  lemma NotItsTurn(s: Link, t: Link, m: Message, code: int, out: seq<byte>)
    requires t.outcomes == s.outcomes + [Got(Message(code, out))] && t.log == s.log + [m]
    requires |m.payload| < |out| && (forall i | i in t.cutReads :: 0 <= i < |s.outcomes|)
    requires var k := |s.outcomes|; (k < |s.log| && |s.log[k].payload| == |out| ==> s.log[k].payload[0] != out[0])
    ensures !Right(t)
  {
    var k := |s.outcomes|;
    assert t.outcomes[k] == Got(Message(code, out));
    if k < |s.log| { assert t.log[k] == s.log[k]; }
  }

  /** A message of code `c` that makes up for what is missing of `size` bytes. */
  function Filler(c: int, size: nat, unread: nat): (m: Message)
    requires 0 <= c <= 1 && unread < size && IsInt32(size)
    ensures Sendable(m) && m.code == c && |m.payload| < size <= unread + HEADER_SIZE + |m.payload|
    ensures unread + HEADER_SIZE <= size ==> unread + HEADER_SIZE + |m.payload| == size
    ensures unread + HEADER_SIZE > size ==> m.payload == []
  {
    Message(c, seq(if size > unread + HEADER_SIZE then size - unread - HEADER_SIZE else 0, _ => 0))
  }

  lemma FirstByte(sent: seq<byte>, m: Message, at: nat, size: nat)
    requires |sent| == at && 0 < size <= HEADER_SIZE + |m.payload| && 0 <= m.code <= 1
    ensures (sent + Header(m) + m.payload)[at..at + size][0] == m.code
  {
  }

  /** What was sent in between is not what the receiver waits for. */
  lemma FedIsWrong(s: Link, a: Link, t: Link, m: Message)
    requires Unread(s) >= 0 && (forall i | i in s.cutReads :: 0 <= i < |s.outcomes|)
    requires s.receiver.VPayload? && a.receiver == s.receiver && a.ring.received == s.ring.received
    requires a.ring.sent == s.ring.sent + Header(m) + m.payload && 0 <= m.code <= 1
    requires |m.payload| < s.receiver.size <= Unread(a) && Telling(s, s.receiver.size, m.code)
    requires t.log == s.log + [m] && t.cutReads == s.cutReads
    requires t.outcomes == s.outcomes
      + [Got(Message(s.receiver.code, a.ring.sent[|s.ring.received|..|s.ring.received| + s.receiver.size]))]
    ensures !Right(t)
  {
    var at, size := |s.ring.received|, s.receiver.size;
    if Unread(s) == 0 { FirstByte(s.ring.sent, m, at, size); }
    NotItsTurn(s, t, m, s.receiver.code, a.ring.sent[at..at + size]);
  }

  /** The receiver waits for more bytes than there are. The sender sends a message that covers
      them, and what vt_recv returns is not the message whose turn it is. */
  lemma Starved(s: Link, c: int) returns (t: Link)
    requires Playable(s) && s.receiver.VPayload? && s.ring.reader == RWait(s.receiver.size)
    requires Unread(s) < s.receiver.size <= s.ring.bufferSize && IsInt32(s.receiver.size)
    requires Unread(s) + HEADER_SIZE <= s.ring.bufferSize && Telling(s, s.receiver.size, c)
    ensures Leads(s, t) && SameCutSets(s, t) && !Right(t)
  {
    var m := Filler(c, s.receiver.size, Unread(s));
    var a := SendWhole(s, m);
    t := TakePayload(a);
    LeadsTo(s, a, t);
    FedIsWrong(s, a, t, m);
  }

  /** The receiver has read a header and found that a payload of this size follows. */
  lemma PayloadRound(s: Link, c: int) returns (t: Link, over: bool)
    requires Playable(s) && s.receiver.VPayload? && s.ring.reader == RWait(s.receiver.size)
    requires s.receiver.size <= s.ring.bufferSize && IsInt32(s.receiver.size)
    requires Unread(s) + HEADER_SIZE <= s.ring.bufferSize
    requires Unread(s) < s.receiver.size ==> Telling(s, s.receiver.size, c)
    ensures Leads(s, t) && SameCutSets(s, t)
    ensures over ==> !Right(t)
    ensures !over ==>
      && Playable(t) && ReceiverRests(t) && t.log == s.log && t.ring.bufferSize == s.ring.bufferSize
      && Unread(t) == Unread(s) - s.receiver.size
      && exists m: Message :: |m.payload| == s.receiver.size && t.outcomes == s.outcomes + [Got(m)]
  {
    over := Unread(s) < s.receiver.size;
    if over {
      t := Starved(s, c);
    } else {
      t := TakePayload(s);
      assert |s.ring.sent[|s.ring.received|..|s.ring.received| + s.receiver.size]| == s.receiver.size;
    }
  }

  lemma DeliveredLength(s: Link, t: Link, o: Outcome)
    requires Right(t) && t.log == s.log && t.outcomes == s.outcomes + [o] && |s.outcomes| !in t.cutReads
    ensures |s.outcomes| < |s.log| && o == Expected(t.ring.bufferSize, s.log[|s.outcomes|])
  {
    assert t.outcomes[|s.outcomes|] == o;
  }

  /** The message whose turn it is does not end where the unread bytes end: there are more, or
      all of its payload is missing. */
  ghost predicate Misfit(s: Link, m: Message, c: int) {
    || HEADER_SIZE + |Body(s.ring.bufferSize, m)| < Unread(s)
    || (Unread(s) == HEADER_SIZE && 0 < |m.payload| <= s.ring.bufferSize && c != m.payload[0])
  }

  /** One call of vt_recv on whatever bytes there are: it ends in a failure, or it delivers the
      message whose turn it is and takes as many bytes as that message has. */
  lemma Round(s: Link, c: int) returns (t: Link, over: bool)
    requires Playable(s) && ReceiverRests(s) && Unread(s) >= HEADER_SIZE
    requires |s.outcomes| < |s.log| ==> Misfit(s, s.log[|s.outcomes|], c)
    requires 0 <= c <= 1
    ensures Leads(s, t) && SameCutSets(s, t)
    ensures over ==> !Right(t)
    ensures !over ==>
      && Playable(t) && ReceiverRests(t) && Right(t) && t.log == s.log && t.ring.bufferSize == s.ring.bufferSize
      && |t.outcomes| == |s.outcomes| + 1 <= |s.log|
      && Unread(t) == Unread(s) - HEADER_SIZE - |Body(s.ring.bufferSize, s.log[|s.outcomes|])|
    ensures !over && s.log[|s.outcomes|].payload == [] ==> DecodeInt(Taken(s)[..4]) == s.log[|s.outcomes|].code
  {
    var a := TakeHeader(s);
    if a.receiver.VPayload? {
      t, over := PayloadRound(a, c);
      LeadsTo(s, a, t);
    } else {
      t, over := a, false;
    }
    if !over {
      if Right(t) {
        DeliveredLength(s, t, t.outcomes[|s.outcomes|]);
      } else {
        over := true;
      }
    }
  }

  /** The bytes of the logged messages from the k-th on. */
  function Rest(n: nat, log: seq<Message>, k: nat): nat
    decreases |log| - k
  {
    if k >= |log| then 0 else HEADER_SIZE + |Body(n, log[k])| + Rest(n, log, k + 1)
  }

  lemma {:induction false} RestReachesLast(n: nat, log: seq<Message>, k: nat)
    requires k < |log|
    ensures Rest(n, log, k) >= HEADER_SIZE + |Body(n, log[|log| - 1])|
    decreases |log| - k
  {
    if k < |log| - 1 { RestReachesLast(n, log, k + 1); }
  }

  /** A code of 0 or 1 other than the given byte. */
  function Other(b: byte): (c: int)
    ensures 0 <= c <= 1 && c != b
  {
    if b == 0 then 1 else 0
  }

  lemma DecodeLow(b: seq<byte>)
    requires |b| == 4 && 0 <= DecodeInt(b) <= 1
    ensures b[0] as int == DecodeInt(b)
  {
  }

  /** Less than a header is left over, and everything logged has been received. The next
      header is torn apart, or there is no room for it. */
  lemma TooShort(s: Link) returns (t: Link)
    requires Playable(s) && ReceiverRests(s) && Right(s) && |s.outcomes| == |s.log| && 0 < Unread(s) < HEADER_SIZE
    ensures Leads(s, t) && SameCutSets(s, t) && Wrong(t)
    ensures Right(t) ==> s.ring.bufferSize < Unread(s) + HEADER_SIZE
  {
    if s.ring.bufferSize < Unread(s) + HEADER_SIZE {
      var a := AskForHeader(s);
      t := Stuck(a);
      LeadsTo(s, a, t);
    } else {
      var first := s.ring.sent[|s.ring.received|];
      var m := Message(Other(first), []);
      var a := SendWhole(s, m);
      var over;
      assert Taken(a)[..4][0] == first;
      t, over := Round(a, 0);
      LeadsTo(s, a, t);
      if !over { DecodeLow(Taken(a)[..4]); }
    }
  }

  /** The unread bytes are not as many as the messages still to be received have: too many, or
      all but the last payload. */
  ghost predicate Skewed(s: Link, d: int) {
    var n, k, last := s.ring.bufferSize, |s.outcomes|, |s.log| - 1;
    && Playable(s) && ReceiverRests(s) && Right(s)
    && Unread(s) == Rest(n, s.log, k) + d
    && (d > 0 || (k <= last && d == -|Body(n, s.log[last])| < 0))
  }

  /** The message whose turn it is then is a misfit, if the header sent next is told apart from
      the last payload. */
  lemma SkewedMisfits(s: Link, d: int) returns (c: int)
    requires Skewed(s, d)
    ensures 0 <= c <= 1 && (|s.outcomes| < |s.log| ==> Misfit(s, s.log[|s.outcomes|], c))
    ensures Unread(s) < HEADER_SIZE ==> |s.outcomes| == |s.log|
  {
    var n, k, last := s.ring.bufferSize, |s.outcomes|, |s.log| - 1;
    c := if k <= last && s.log[last].payload != [] then Other(s.log[last].payload[0]) else 0;
    if k <= last { RestReachesLast(n, s.log, k); }
    if k < last { RestReachesLast(n, s.log, k + 1); }
  }

  lemma {:induction false} SkewedGoesWrong(s: Link, d: int) returns (t: Link)
    requires Skewed(s, d)
    ensures Leads(s, t) && SameCutSets(s, t) && Wrong(t)
    ensures Right(t) ==> 0 < d < HEADER_SIZE && s.ring.bufferSize < d + HEADER_SIZE
    decreases |s.log| - |s.outcomes|
  {
    var c := SkewedMisfits(s, d);
    if Unread(s) < HEADER_SIZE {
      t := TooShort(s);
    } else {
      var over;
      t, over := Round(s, c);
      if !over {
        var a := t;
        StaysSkewed(s, a, d);
        t := SkewedGoesWrong(a, d);
        LeadsTo(s, a, t);
      }
    }
  }

  lemma StaysSkewed(s: Link, t: Link, d: int)
    requires Skewed(s, d) && Playable(t) && ReceiverRests(t) && Right(t)
    requires t.log == s.log && t.ring.bufferSize == s.ring.bufferSize && |t.outcomes| == |s.outcomes| + 1 <= |s.log|
    requires Unread(t) == Unread(s) - HEADER_SIZE - |Body(s.ring.bufferSize, s.log[|s.outcomes|])| >= 0
    ensures Skewed(t, d)
  {
    var n, k := s.ring.bufferSize, |s.outcomes|;
    assert Rest(n, s.log, k) == HEADER_SIZE + |Body(n, s.log[k])| + Rest(n, s.log, k + 1);
  }

  // ---- the exact condition ----

  /** Both programs are between two calls: each may go on. */
  ghost predicate BetweenCalls(s: Link) {
    SenderRests(s) && ReceiverRests(s)
  }

  /** vt_send was cut at the message it logged last, which vt_recv has not reached; all other
      cuts are shared. */
  ghost predicate OnlySenderCut(s: Link) {
    var last := |s.log| - 1;
    last !in s.cutReads && s.cutSends == s.cutReads + {last} && |s.outcomes| <= last
  }

  /** vt_recv was cut at its last outcome, a payload that vt_send did transfer; all other cuts
      are shared. */
  ghost predicate OnlyReceiverCut(s: Link) {
    var last := |s.outcomes| - 1;
    last !in s.cutSends && s.cutReads == s.cutSends + {last}
  }

  /** Without further cuts, every delivery is right and the two sides never block each other. */
  ghost predicate GoesOnRight(s: Link) {
    forall t | Leads(s, t) && SameCutSets(s, t) :: !Wrong(t)
  }

  /** The wire from the k-th message on. */
  lemma {:induction false} WireRest(n: nat, log: seq<Message>, cuts: set<int>, k: nat)
    requires k <= |log| && (forall i | i in cuts :: i < k)
    ensures |Wire(n, log, cuts)| == |Wire(n, log[..k], cuts)| + Rest(n, log, k)
    decreases |log| - k
  {
    if k == |log| {
      WireWhole(n, log, cuts);
    } else {
      WireRest(n, log, cuts, k + 1);
      WireSnoc(n, log, cuts, k);
    }
  }

  lemma CutShortens(n: nat, log: seq<Message>, cuts: set<int>)
    requires log != [] && |log| - 1 !in cuts
    ensures |Wire(n, log, cuts + {|log| - 1})| == |Wire(n, log, cuts)| - |Body(n, log[|log| - 1])|
  {
    WireSame(n, log[..|log| - 1], cuts, cuts + {|log| - 1});
  }

  lemma MissingUnread(n: nat, log: seq<Message>, cuts: set<int>, k: nat)
    requires k < |log| && (forall i | i in cuts :: i < k)
    ensures |Wire(n, log, cuts + {|log| - 1})|
         == |Wire(n, log[..k], cuts)| + Rest(n, log, k) - |Body(n, log[|log| - 1])|
  {
    WireRest(n, log, cuts, k);
    CutShortens(n, log, cuts);
  }

  lemma SenderCutInStep(s: Link)
    requires LinkInv(s) && BetweenCalls(s) && OnlySenderCut(s)
    ensures Right(s) && 0 < |Body(s.ring.bufferSize, s.log[|s.log| - 1])|
    ensures |s.ring.sent| == |Wire(s.ring.bufferSize, s.log, s.cutSends)|
    ensures |s.ring.received| == |Wire(s.ring.bufferSize, s.log[..|s.outcomes|], s.cutReads)|
  {
    assert InStep(s);
    assert |s.log| - 1 in s.cutSends;
  }

  lemma SenderCutSkews(s: Link)
    requires LinkInv(s) && BetweenCalls(s) && OnlySenderCut(s)
    ensures Skewed(s, -|Body(s.ring.bufferSize, s.log[|s.log| - 1])|)
  {
    SenderCutInStep(s);
    MissingUnread(s.ring.bufferSize, s.log, s.cutReads, |s.outcomes|);
  }

  lemma {:induction false} PathKeeps(s: Link, steps: seq<LinkStep>, t: Link)
    requires LinkInv(s) && Path(s, steps, t)
    ensures LinkInv(t)
    decreases |steps|
  {
    if steps != [] {
      LinkStepKeeps(s, steps[0]);
      PathKeeps(LinkDo(s, steps[0]), steps[1..], t);
    }
  }

  lemma LeadsKeeps(s: Link, t: Link)
    requires LinkInv(s) && Leads(s, t)
    ensures LinkInv(t)
  {
    var steps :| Path(s, steps, t);
    PathKeeps(s, steps, t);
  }

  /** A sender that goes on after it alone was cut: some continuation delivers a message that
      is not the one vt_send was called with. */
  lemma SenderCutTears(s: Link) returns (t: Link)
    requires LinkInv(s) && BetweenCalls(s) && OnlySenderCut(s)
    ensures Leads(s, t) && SameCutSets(s, t) && !Right(t)
  {
    SenderCutSkews(s);
    t := SkewedGoesWrong(s, -|Body(s.ring.bufferSize, s.log[|s.log| - 1])|);
  }

  lemma LeftUnread(n: nat, log: seq<Message>, cuts: set<int>, k: nat)
    requires 0 < k <= |log| && (forall i | i in cuts :: i < k - 1)
    ensures |Wire(n, log, cuts)|
         == |Wire(n, log[..k], cuts + {k - 1})| + Rest(n, log, k) + |Body(n, log[k - 1])|
  {
    WireRest(n, log, cuts, k);
    WireSnoc(n, log, cuts, k - 1);
    WireSame(n, log[..k - 1], cuts, cuts + {k - 1});
    WireSnoc(n, log, cuts + {k - 1}, k - 1);
  }

  lemma ReceiverCutSkews(s: Link)
    requires LinkInv(s) && BetweenCalls(s) && OnlyReceiverCut(s)
    ensures |s.outcomes| <= |s.log| && Skewed(s, |Body(s.ring.bufferSize, s.log[|s.outcomes| - 1])|)
  {
    LeftUnread(s.ring.bufferSize, s.log, s.cutSends, |s.outcomes|);
  }

  /** What vt_recv left unread is less than a header, and leaves no room for one: this takes a
      ring of eight bytes. */
  ghost predicate Stranded(s: Link) {
    && OnlyReceiverCut(s) && 0 < |s.outcomes| <= |s.log|
    && |s.log[|s.outcomes| - 1].payload| < HEADER_SIZE
    && s.ring.bufferSize < |s.log[|s.outcomes| - 1].payload| + HEADER_SIZE
  }

  /** A receiver that goes on after it alone was cut: some continuation delivers a message that
      is not the one sent, unless it is stranded, and then both sides get stuck. */
  lemma ReceiverCutTears(s: Link) returns (t: Link)
    requires LinkInv(s) && BetweenCalls(s) && OnlyReceiverCut(s)
    ensures Leads(s, t) && SameCutSets(s, t) && if Stranded(s) then Wrong(t) else !Right(t)
  {
    ReceiverCutSkews(s);
    t := SkewedGoesWrong(s, |Body(s.ring.bufferSize, s.log[|s.outcomes| - 1])|);
  }

  lemma SharedCutsAlign(s: Link)
    requires LinkInv(s) && s.cutSends == s.cutReads
    ensures !Wrong(s)
  {
    assert InStep(s);
    assert Aligned(s);
    NotBothBlocked(s);
  }

  lemma SharedCutsGoOn(s: Link)
    requires LinkInv(s) && s.cutSends == s.cutReads
    ensures GoesOnRight(s)
  {
    forall t | Leads(s, t) && SameCutSets(s, t)
      ensures !Wrong(t)
    {
      LeadsKeeps(s, t);
      SharedCutsAlign(t);
    }
  }

  /** The exact condition. Take any reachable state in which both sides are between calls and
      at most one cut, the latest, is not shared. The link keeps its promise from there, as
      long as nobody is cut again, if and only if that cut does not exist: after each cut of
      one side the other one has to be cut at the same message, or has to stop. */
  lemma GoesOnRightIff(run: seq<Link>, steps: seq<LinkStep>, i: nat)
    requires IsLinkRun(run, steps) && i < |run| && BetweenCalls(run[i])
    requires run[i].cutSends == run[i].cutReads || OnlySenderCut(run[i]) || OnlyReceiverCut(run[i])
    ensures GoesOnRight(run[i]) <==> run[i].cutSends == run[i].cutReads
  {
    var s := run[i];
    LinkRunKeeps(run, steps, i);
    if s.cutSends == s.cutReads {
      SharedCutsGoOn(s);
    } else {
      var t;
      if OnlySenderCut(s) {
        t := SenderCutTears(s);
      } else {
        t := ReceiverCutTears(s);
      }
      assert Wrong(t);
    }
  }

  // ---- deliveries alone ----

  /** Nothing moves any more: less than a header is unread, there is no room for another one,
      and neither side has a payload to transfer. */
  ghost predicate Halted(s: Link) {
    var w, r := s.ring.writer, s.ring.reader;
    && Inv(s.ring) && s.ring.bufferSize >= HEADER_SIZE
    && Unread(s) < HEADER_SIZE && s.ring.bufferSize < Unread(s) + HEADER_SIZE
    && !s.sender.SPayload? && !s.receiver.VPayload?
    && (if s.sender.SHeader? then !w.WIdle? && |w.data| == HEADER_SIZE && (w.WReturned? ==> !w.ok) else w.WIdle?)
    && (if s.receiver.VHeader? then !r.RIdle? && (if r.RReturned? then !r.ok else r.size == HEADER_SIZE) else r.RIdle?)
  }

  predicate SameDeliveries(s: Link, t: Link) {
    t.outcomes == s.outcomes && t.log == s.log && t.cutReads == s.cutReads && t.ring.bufferSize == s.ring.bufferSize
  }

  lemma HaltedCallStep(s: Link, step: LinkStep)
    requires Halted(s) && LinkEnabled(s, step) && !step.RingStep?
    ensures Halted(LinkDo(s, step)) && SameDeliveries(s, LinkDo(s, step))
  {
    RingInvKeeps(s, step);
  }

  lemma HaltedRingStep(s: Link, r: Step)
    requires Halted(s) && LinkEnabled(s, RingStep(r))
    ensures Halted(LinkDo(s, RingStep(r))) && SameDeliveries(s, LinkDo(s, RingStep(r)))
  {
    RingInvKeeps(s, RingStep(r));
    PublishedFreeSpace(s.ring);
  }

  lemma {:induction false} HaltedPath(s: Link, steps: seq<LinkStep>, t: Link)
    requires Halted(s) && Path(s, steps, t)
    ensures SameDeliveries(s, t)
    decreases |steps|
  {
    if steps != [] {
      if steps[0].RingStep? { HaltedRingStep(s, steps[0].step); } else { HaltedCallStep(s, steps[0]); }
      HaltedPath(LinkDo(s, steps[0]), steps[1..], t);
    }
  }

  lemma StrandedHalts(s: Link)
    requires LinkInv(s) && BetweenCalls(s) && Stranded(s)
    ensures Halted(s) && Right(s)
  {
    ReceiverCutSkews(s);
  }

  /** Without further cuts, every delivery is right. */
  ghost predicate DeliversRight(s: Link) {
    forall t | Leads(s, t) && SameCutSets(s, t) :: Right(t)
  }

  lemma StrandedDeliversRight(s: Link)
    requires LinkInv(s) && BetweenCalls(s) && Stranded(s)
    ensures DeliversRight(s)
  {
    StrandedHalts(s);
    forall t | Leads(s, t) && SameCutSets(s, t)
      ensures Right(t)
    {
      var steps :| Path(s, steps, t);
      HaltedPath(s, steps, t);
    }
  }

  /** The same for the deliveries alone: from such a state some continuation delivers a wrong
      message, if and only if one cut is not shared and the link is not halted for good. */
  lemma DeliversRightIff(run: seq<Link>, steps: seq<LinkStep>, i: nat)
    requires IsLinkRun(run, steps) && i < |run| && BetweenCalls(run[i])
    requires run[i].cutSends == run[i].cutReads || OnlySenderCut(run[i]) || OnlyReceiverCut(run[i])
    ensures DeliversRight(run[i]) <==> run[i].cutSends == run[i].cutReads || Stranded(run[i])
  {
    var s := run[i];
    LinkRunKeeps(run, steps, i);
    if s.cutSends == s.cutReads {
      SharedCutsGoOn(s);
      assert forall t | Leads(s, t) && SameCutSets(s, t) :: !Wrong(t);
    } else if Stranded(s) {
      StrandedDeliversRight(s);
    } else {
      var t;
      if OnlySenderCut(s) {
        t := SenderCutTears(s);
      } else {
        t := ReceiverCutTears(s);
      }
      assert !Right(t);
    }
  }

  // ---- either side can be the only one that is cut ----

  lemma FreshLink(n: nat) returns (s: Link)
    requires PowerOfTwo(n) && n >= HEADER_SIZE
    ensures LinkInit(s) && Inv(s.ring) && s.ring.bufferSize == n
  {
    var ring := Ring(n, 0, 0, false, seq(n, _ => 0), WIdle, RIdle, [], []);
    s := Link(ring, SIdle, VIdle, [], [], [], {}, {});
    InitKeeps(ring);
  }

  /** The header is out and the payload is to follow. */
  lemma HeaderOut(n: nat, m: Message) returns (s: Link, t: Link)
    requires PowerOfTwo(n) && n >= HEADER_SIZE && Sendable(m) && 0 < |m.payload| <= n
    ensures LinkInit(s) && Leads(s, t) && Inv(t.ring) && t.ring.bufferSize == n
    ensures t.sender == SPayload(m) && t.ring.writer == WWait(m.payload) && ReceiverRests(t)
    ensures t.ring.sent == Header(m) && t.ring.received == [] && t.log == [m] && t.outcomes == []
    ensures t.cutSends == {} && t.cutReads == {}
  {
    s := FreshLink(n);
    var a := SendHeaderOf(s, m);
    t := LeadsBy(s, a, HeaderWritten);
  }

  lemma NoRoom(s: Link) returns (t: Link)
    requires Inv(s.ring) && s.ring.writer.WWait? && s.ring.bufferSize < Unread(s) + |s.ring.writer.data|
    ensures Leads(s, t) && Inv(t.ring)
    ensures t == s.(ring := s.ring.(writer := WSpin(s.ring.writer.data)))
  {
    LeadsNowhere(s);
    PublishedFreeSpace(s.ring);
    var a := LeadsBy(s, s, RingStep(LoadHead));
    t := LeadsBy(s, a, RingStep(DecideWrite));
  }

  lemma WriterToldToExit(s: Link) returns (t: Link)
    requires Inv(s.ring) && s.ring.writer.WSpin?
    ensures Leads(s, t) && Inv(t.ring)
    ensures t == s.(ring := s.ring.(writer := WReturned(s.ring.writer.data, false), exit := true))
  {
    LeadsNowhere(s);
    var a := LeadsBy(s, s, RingStep(RaiseExit));
    t := LeadsBy(s, a, RingStep(SpinWrite));
  }

  lemma SendReturns(s: Link) returns (t: Link)
    requires Inv(s.ring) && s.sender.SPayload? && s.ring.writer == WReturned(s.sender.m.payload, false)
    requires |s.sender.m.payload| <= s.ring.bufferSize
    ensures Leads(s, t)
    ensures t == s.(ring := s.ring.(writer := WIdle), sender := SIdle, cutSends := s.cutSends + {|s.log| - 1})
  {
    LeadsNowhere(s);
    var a := LeadsBy(s, s, PayloadWritten);
    t := LeadsBy(s, a, FinishSend);
  }

  /** vt_send waits for room, EXIT is raised, and it gives up. */
  lemma SenderGivesUp(s: Link) returns (t: Link)
    requires Inv(s.ring) && s.sender.SPayload? && s.ring.writer == WWait(s.sender.m.payload)
    requires |s.sender.m.payload| <= s.ring.bufferSize < Unread(s) + |s.sender.m.payload|
    ensures Leads(s, t)
    ensures t == s.(ring := s.ring.(writer := WIdle, exit := true), sender := SIdle,
                    cutSends := s.cutSends + {|s.log| - 1})
  {
    var a := NoRoom(s);
    var b := WriterToldToExit(a);
    LeadsTo(s, a, b);
    t := SendReturns(b);
    LeadsTo(s, b, t);
  }

  lemma TooLittle(s: Link) returns (t: Link)
    requires Inv(s.ring) && s.ring.reader.RWait? && Unread(s) < s.ring.reader.size
    ensures Leads(s, t) && Inv(t.ring)
    ensures t == s.(ring := s.ring.(reader := RSpin(s.ring.reader.size)))
  {
    LeadsNowhere(s);
    PublishedFreeSpace(s.ring);
    var a := LeadsBy(s, s, RingStep(LoadTail));
    t := LeadsBy(s, a, RingStep(DecideRead));
  }

  lemma ReaderToldToExit(s: Link) returns (t: Link)
    requires Inv(s.ring) && s.ring.reader.RSpin?
    ensures Leads(s, t) && Inv(t.ring)
    ensures t == s.(ring := s.ring.(reader := RReturned([], false), exit := true))
  {
    LeadsNowhere(s);
    var a := LeadsBy(s, s, RingStep(RaiseExit));
    t := LeadsBy(s, a, RingStep(SpinRead));
  }

  lemma RecvReturns(s: Link) returns (t: Link)
    requires Inv(s.ring) && s.receiver.VPayload? && s.ring.reader == RReturned([], false)
    requires s.receiver.size <= s.ring.bufferSize
    ensures Leads(s, t) && Inv(t.ring)
    ensures t == s.(ring := s.ring.(reader := RIdle), receiver := VIdle, outcomes := s.outcomes + [Lost],
                    cutReads := s.cutReads + {|s.outcomes|})
  {
    LeadsNowhere(s);
    var a := LeadsBy(s, s, PayloadRead);
    assert a == s.(ring := s.ring.(reader := RIdle), receiver := VReturned, outcomes := s.outcomes + [Lost],
                   cutReads := s.cutReads + {|s.outcomes|});
    t := LeadsBy(s, a, FinishRecv);
  }

  /** vt_recv waits for a payload, EXIT is raised, and it gives up. */
  lemma ReceiverGivesUp(s: Link) returns (t: Link)
    requires Inv(s.ring) && s.receiver.VPayload? && s.ring.reader == RWait(s.receiver.size)
    requires Unread(s) < s.receiver.size <= s.ring.bufferSize
    ensures Leads(s, t) && Inv(t.ring)
    ensures t == s.(ring := s.ring.(reader := RIdle, exit := true), receiver := VIdle,
                    outcomes := s.outcomes + [Lost], cutReads := s.cutReads + {|s.outcomes|})
  {
    var a := TooLittle(s);
    var b := ReaderToldToExit(a);
    LeadsTo(s, a, b);
    t := RecvReturns(b);
    LeadsTo(s, b, t);
  }

  lemma PayloadFollows(s: Link) returns (t: Link)
    requires Inv(s.ring) && s.sender.SPayload? && s.ring.writer == WWait(s.sender.m.payload)
    requires Unread(s) + |s.sender.m.payload| <= s.ring.bufferSize
    ensures Leads(s, t)
    ensures t == s.(ring := t.ring, sender := SIdle) && t.ring.writer == WIdle
    ensures t.ring.reader == s.ring.reader && t.ring.bufferSize == s.ring.bufferSize
  {
    var a := WholeWrite(s);
    var b := LeadsBy(s, a, PayloadWritten);
    t := LeadsBy(s, b, FinishSend);
  }

  lemma HeaderTaken(n: nat, m: Message) returns (s: Link, t: Link)
    requires PowerOfTwo(n) && n >= HEADER_SIZE && Sendable(m) && 0 < |m.payload| <= n
    ensures LinkInit(s) && Leads(s, t) && Inv(t.ring) && t.ring.bufferSize == n && Unread(t) == 0
    ensures t.sender == SPayload(m) && t.ring.writer == WWait(m.payload)
    ensures t.receiver == VPayload(m.code, |m.payload|) && t.ring.reader == RWait(|m.payload|)
    ensures t.log == [m] && t.outcomes == [] && t.cutSends == {} && t.cutReads == {}
  {
    var a;
    s, a := HeaderOut(n, m);
    HeaderRoundTrip(m);
    assert Taken(a) == Header(m);
    t := TakeHeader(a);
    LeadsTo(s, a, t);
  }

  /** In a ring of any size, with any message that does not leave room for its header: the
      sender alone is cut, and may go on. */
  lemma SenderAloneCut(n: nat, m: Message) returns (run: seq<Link>, steps: seq<LinkStep>)
    requires PowerOfTwo(n) && n >= HEADER_SIZE && Sendable(m) && |m.payload| <= n < HEADER_SIZE + |m.payload|
    ensures IsLinkRun(run, steps)
    ensures var s := run[|steps|];
      BetweenCalls(s) && OnlySenderCut(s) && s.log == [m] && s.ring.bufferSize == n && !GoesOnRight(s)
  {
    var s, a := HeaderOut(n, m);
    var t := SenderGivesUp(a);
    LeadsTo(s, a, t);
    steps :| Path(s, steps, t);
    run := PathIsRun(s, steps, t);
    GoesOnRightIff(run, steps, |steps|);
  }

  lemma ReceiverCutOff(n: nat, m: Message) returns (s: Link, t: Link)
    requires PowerOfTwo(n) && n >= HEADER_SIZE && Sendable(m) && 0 < |m.payload| <= n
    ensures LinkInit(s) && Leads(s, t) && t.ring.bufferSize == n
    ensures BetweenCalls(t) && t.log == [m] && OnlyReceiverCut(t)
  {
    var a;
    s, a := HeaderTaken(n, m);
    var b := ReceiverGivesUp(a);
    LeadsTo(s, a, b);
    t := PayloadFollows(b);
    LeadsTo(s, b, t);
  }

  /** In a ring of any size, with any payload that fits: the receiver alone is cut, and may
      go on. */
  lemma ReceiverAloneCut(n: nat, m: Message) returns (run: seq<Link>, steps: seq<LinkStep>)
    requires PowerOfTwo(n) && n >= HEADER_SIZE && Sendable(m) && 0 < |m.payload| <= n
    ensures IsLinkRun(run, steps)
    ensures var s := run[|steps|];
      BetweenCalls(s) && OnlyReceiverCut(s) && s.log == [m] && s.ring.bufferSize == n && !GoesOnRight(s)
  {
    var s, t := ReceiverCutOff(n, m);
    steps :| Path(s, steps, t);
    run := PathIsRun(s, steps, t);
    GoesOnRightIff(run, steps, |steps|);
  }
}
