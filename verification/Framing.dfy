/** Messages over the ring: vt_send writes an eight-byte header and then the payload,
    vt_recv reads a header and then as many bytes as it announces. Sender and receiver are
    programs whose calls are carried out by the ring's own steps, so every interleaving of
    the byte copies and counter publications below a message is covered. */
module Framing {
  import opened Bits
  import opened RingProtocol
  import opened Sequences

  const HEADER_SIZE: nat := 8

  /** Request code (an int32_t) and payload (its size is an int32_t too). */
  datatype Message = Message(code: int, payload: seq<byte>)

  predicate IsInt32(x: int) { -0x8000_0000 <= x < 0x8000_0000 }

  predicate Sendable(m: Message) {
    IsInt32(m.code) && IsInt32(|m.payload|)
  }

  // ---- the header ----

  function EncodeInt(x: int): (b: seq<byte>)
    ensures |b| == 4
  {
    var w := Wrap32(x);
    [w % 256, w / 256 % 256, w / 0x1_0000 % 256, w / 0x100_0000 % 256]
  }

  function DecodeInt(b: seq<byte>): (x: int)
    requires |b| == 4
    ensures IsInt32(x)
  {
    var w := b[0] as int + 256 * b[1] as int + 0x1_0000 * b[2] as int + 0x100_0000 * b[3] as int;
    if w < 0x8000_0000 then w else w - WRAP
  }

  lemma IntRoundTrip(x: int)
    requires IsInt32(x)
    ensures DecodeInt(EncodeInt(x)) == x
    ensures EncodeInt(x)[0] == x % 256 && (EncodeInt(x)[3] >= 128 <==> x < 0)
  {
    var w := Wrap32(x);
    assert w == x || w == x + WRAP;
    WordDigits(w);
    LowByte(x);
  }

  /** The low byte comes first. */
  lemma LowByte(x: int)
    ensures EncodeInt(x)[0] == x % 256
  {
    RemainderOfRemainder(x, 256, 0x100_0000);
  }

  lemma WordDigits(w: nat)
    requires w < WRAP
    ensures w % 256 + 256 * (w / 256 % 256) + 0x1_0000 * (w / 0x1_0000 % 256) + 0x100_0000 * (w / 0x100_0000 % 256) == w
  {
    assert w / 0x1_0000 == w / 256 / 256;
    assert w / 0x100_0000 == w / 0x1_0000 / 256;
    assert w / 0x100_0000 < 256;
  }

  function Header(m: Message): (b: seq<byte>)
    ensures |b| == HEADER_SIZE
  {
    EncodeInt(m.code) + EncodeInt(|m.payload|)
  }

  lemma HeaderRoundTrip(m: Message)
    requires Sendable(m)
    ensures DecodeInt(Header(m)[..4]) == m.code
    ensures DecodeInt(Header(m)[4..]) == |m.payload|
  {
    IntRoundTrip(m.code);
    IntRoundTrip(|m.payload|);
    assert Header(m)[..4] == EncodeInt(m.code);
    assert Header(m)[4..] == EncodeInt(|m.payload|);
  }

  // ---- the two programs ----

  datatype Sender =
    | SIdle
    | SHeader(m: Message)
    | SPayload(m: Message)
    | SReturned(result: int)

  datatype Receiver =
    | VIdle
    | VHeader
    | VPayload(code: int, size: nat)
    | VReturned

  /** What vt_recv returned for a header it consumed. */
  datatype Outcome = Got(m: Message) | Lost

  /** Histories, which the code does not have: `calls` lists every message vt_send was
      called with, `log` those whose header has been published, `outcomes` what vt_recv
      made of the headers it consumed. A payload that fits the ring is cut when EXIT makes
      its transfer give up: `cutSends` are the places in the log where vt_send was cut,
      `cutReads` the places among the outcomes where vt_recv was. */
  datatype Link = Link(
    ring: Ring, sender: Sender, receiver: Receiver,
    calls: seq<Message>, log: seq<Message>, outcomes: seq<Outcome>,
    cutSends: set<int>, cutReads: set<int>)

  datatype LinkStep =
    | StartSend(m: Message)
    | HeaderWritten
    | PayloadWritten
    | FinishSend
    | StartRecv
    | HeaderRead
    | PayloadRead
    | FinishRecv
    | RingStep(step: Step)

  ghost predicate LinkInit(s: Link) {
    && RingProtocol.Init(s.ring) && s.ring.bufferSize >= HEADER_SIZE
    && s.sender == SIdle && s.receiver == VIdle
    && s.calls == [] && s.log == [] && s.outcomes == []
    && s.cutSends == {} && s.cutReads == {}
  }

  predicate IsCall(step: Step) {
    step.CallWrite? || step.ReturnWrite? || step.CallRead? || step.ReturnRead?
  }

  predicate LinkEnabled(s: Link, step: LinkStep) {
    match step
    case StartSend(m) => s.sender.SIdle? && s.ring.writer.WIdle? && Sendable(m)
    case HeaderWritten =>
      s.sender.SHeader? && s.ring.writer.WReturned? && Sendable(s.sender.m)
    case PayloadWritten => s.sender.SPayload? && s.ring.writer.WReturned?
    case FinishSend => s.sender.SReturned?
    case StartRecv => s.receiver.VIdle? && s.ring.reader.RIdle?
    case HeaderRead =>
      && s.receiver.VHeader? && s.ring.reader.RReturned?
      && (s.ring.reader.ok ==> |s.ring.reader.out| == HEADER_SIZE)
    case PayloadRead => s.receiver.VPayload? && s.ring.reader.RReturned?
    case FinishRecv => s.receiver.VReturned?
    case RingStep(r) => !IsCall(r) && Enabled(s.ring, r)
  }

  function LinkDo(s: Link, step: LinkStep): Link
    requires LinkEnabled(s, step)
  {
    match step
    case StartSend(m) =>
      s.(sender := SHeader(m), ring := Do(s.ring, CallWrite(Header(m))),
         calls := s.calls + [m])
    case HeaderWritten =>
      var m := s.sender.m;
      var ring := Do(s.ring, ReturnWrite);
      if !s.ring.writer.ok then s.(sender := SReturned(0), ring := ring)
      else if |m.payload| > 0 then
        s.(sender := SPayload(m), ring := Do(ring, CallWrite(m.payload)))
      else s.(sender := SReturned(|m.payload|), ring := ring)
    case PayloadWritten =>
      var m := s.sender.m;
      var ring := Do(s.ring, ReturnWrite);
      if s.ring.writer.ok then s.(sender := SReturned(|m.payload|), ring := ring)
      else if |m.payload| > s.ring.bufferSize then s.(sender := SReturned(0), ring := ring)
      else s.(sender := SReturned(0), ring := ring, cutSends := s.cutSends + {|s.log| - 1})
    case FinishSend => s.(sender := SIdle)
    case StartRecv =>
      s.(receiver := VHeader, ring := Do(s.ring, CallRead(HEADER_SIZE)))
    case HeaderRead =>
      var out := s.ring.reader.out;
      var ring := Do(s.ring, ReturnRead);
      if !s.ring.reader.ok then s.(receiver := VReturned, ring := ring)
      else
        var code, size := DecodeInt(out[..4]), DecodeInt(out[4..]);
        if size > 0 then s.(receiver := VPayload(code, size), ring := Do(ring, CallRead(size)))
        else s.(receiver := VReturned, ring := ring, outcomes := s.outcomes + [Got(Message(code, []))])
    case PayloadRead =>
      var v := s.receiver;
      var ring := Do(s.ring, ReturnRead);
      if s.ring.reader.ok then
        s.(receiver := VReturned, ring := ring,
           outcomes := s.outcomes + [Got(Message(v.code, s.ring.reader.out))])
      else
        s.(receiver := VReturned, ring := ring, outcomes := s.outcomes + [Lost],
           cutReads := if v.size <= s.ring.bufferSize then s.cutReads + {|s.outcomes|} else s.cutReads)
    case FinishRecv => s.(receiver := VIdle)
    case RingStep(r) =>
      s.(ring := Do(s.ring, r),
         log := if r == PublishTail && s.sender.SHeader? then s.log + [s.sender.m] else s.log)
  }

  ghost predicate IsLinkRun(run: seq<Link>, steps: seq<LinkStep>) {
    && |run| == |steps| + 1
    && LinkInit(run[0])
    && forall i | 0 <= i < |steps| :: LinkEnabled(run[i], steps[i]) && run[i + 1] == LinkDo(run[i], steps[i])
  }

  // ---- what the stream should look like ----

  /** A payload larger than the ring is refused by both sides after the header. */
  function Body(n: nat, m: Message): seq<byte> {
    if |m.payload| <= n then m.payload else []
  }

  /** What follows a header: the payload, unless its transfer was cut. */
  function Carried(n: nat, m: Message, cut: bool): seq<byte> {
    if cut then [] else Body(n, m)
  }

  /** The bytes of a sequence of messages of which those at `cuts` are headers only. */
  function Wire(n: nat, msgs: seq<Message>, cuts: set<int>): seq<byte> {
    if msgs == [] then []
    else
      var last := |msgs| - 1;
      Wire(n, msgs[..last], cuts) + (Header(msgs[last]) + Carried(n, msgs[last], last in cuts))
  }

  function Expected(n: nat, m: Message): Outcome {
    if |m.payload| <= n then Got(m) else Lost
  }

  /** The sender is bound to write the payload of the last logged message, or has it under
      way. */
  predicate Owes(s: Link) {
    var done := s.ring.writer.WReturned? && s.ring.writer.ok;
    (s.sender.SHeader? && done) || (s.sender.SPayload? && !done)
  }

  /** The bytes of the last logged message that are not in the ring yet. */
  ghost function Owed(s: Link): seq<byte> {
    if Owes(s) then Body(s.ring.bufferSize, s.sender.m) else []
  }

  ghost predicate SenderFits(n: nat, sender: Sender, w: Writer, log: seq<Message>, cuts: set<int>) {
    match sender
    case SIdle => w.WIdle?
    case SReturned(_) => w.WIdle?
    case SHeader(m) =>
      && !w.WIdle? && w.data == Header(m)
      && (w.WReturned? && w.ok ==> log != [] && log[|log| - 1] == m && |log| - 1 !in cuts)
    case SPayload(m) =>
      && !w.WIdle? && w.data == m.payload && m.payload != []
      && log != [] && log[|log| - 1] == m && |log| - 1 !in cuts
      && (|m.payload| > n ==> w.WReturned? && !w.ok)
  }

  /** The published bytes and the bytes still owed spell the logged messages, those the
      sender was cut at as headers only. */
  ghost predicate SendFramed(s: Link) {
    var n := s.ring.bufferSize;
    && SenderFits(n, s.sender, s.ring.writer, s.log, s.cutSends)
    && (forall i | i in s.cutSends :: 0 <= i < |s.log| && 0 < |s.log[i].payload| <= n)
    && s.ring.sent + Owed(s) == Wire(n, s.log, s.cutSends)
  }

  ghost function Partial(r: Reader): seq<byte> {
    if r.RReturned? && r.ok then r.out else []
  }

  /** The bytes consumed since the last complete message, `log[k]` being the next one. */
  ghost function Consumed(receiver: Receiver, r: Reader, log: seq<Message>, k: nat): seq<byte> {
    match receiver
    case VHeader => Partial(r)
    case VPayload(_, _) => if k < |log| then Header(log[k]) + Partial(r) else Partial(r)
    case _ => []
  }

  ghost predicate ReceiverFits(n: nat, receiver: Receiver, r: Reader, log: seq<Message>, k: nat) {
    match receiver
    case VIdle => r.RIdle?
    case VReturned => r.RIdle?
    case VHeader =>
      && !r.RIdle?
      && (!r.RReturned? ==> r.size == HEADER_SIZE)
      && (r.RReturned? && r.ok ==> |r.out| == HEADER_SIZE)
    case VPayload(code, size) =>
      && !r.RIdle?
      && k < |log| && code == log[k].code && size == |log[k].payload| > 0
      && (!r.RReturned? ==> r.size == size)
      && (r.RReturned? && r.ok ==> |r.out| == size)
      && (size > n ==> r.RReturned? && !r.ok)
  }

  /** vt_recv has delivered, in order, the messages whose headers were sent: each is intact,
      or lost because it is larger than the ring, or lost where vt_recv was cut. */
  ghost predicate Right(s: Link) {
    && |s.outcomes| <= |s.log|
    && forall i | 0 <= i < |s.outcomes| ::
         s.outcomes[i] == if i in s.cutReads then Lost else Expected(s.ring.bufferSize, s.log[i])
  }

  /** The consumed bytes spell the delivered messages, those the receiver was cut at as
      headers only. */
  ghost predicate RecvFramed(s: Link) {
    var n, k, r := s.ring.bufferSize, |s.outcomes|, s.ring.reader;
    && Right(s)
    && ReceiverFits(n, s.receiver, r, s.log, k)
    && (forall i | i in s.cutReads && 0 <= i < k :: 0 < |s.log[i].payload| <= n)
    && s.ring.received == Wire(n, s.log[..k], s.cutReads) + Consumed(s.receiver, r, s.log, k)
  }

  // ---- when the two sides are in step ----

  /** The receiver has consumed nothing since its last outcome. */
  predicate Untouched(s: Link) {
    !s.receiver.VPayload? && !(s.receiver.VHeader? && s.ring.reader.RReturned? && s.ring.reader.ok)
  }

  /** Both sides were cut at message `i`, or the sender may still be. */
  predicate Matched(s: Link, i: int) {
    i in s.cutSends || (i == |s.log| - 1 && Owes(s))
  }

  /** The receiver has read no payload that the sender was cut at, and has read nothing
      behind a payload that it was cut at itself although the sender was not. */
  ghost predicate InStep(s: Link) {
    && (forall i | 0 <= i < |s.outcomes| && i in s.cutSends :: i in s.cutReads)
    && (s.receiver.VPayload? && s.ring.reader.RReturned? && s.ring.reader.ok ==> |s.outcomes| !in s.cutSends)
    && (forall i | i in s.cutReads && i < |s.log| :: Matched(s, i) || (i == |s.outcomes| - 1 && Untouched(s)))
  }

  /** In step, and neither side has gone on past a message that only it was cut at: the
      receiver waits for no payload behind whose place the sender has sent more, and it
      does not wait for a header behind an unread payload. */
  ghost predicate Aligned(s: Link) {
    && InStep(s)
    && (s.receiver.VPayload? && |s.outcomes| in s.cutSends ==> |s.outcomes| == |s.log| - 1)
    && (s.receiver.VHeader? ==> forall i | i in s.cutReads && i < |s.log| :: Matched(s, i))
  }

  ghost predicate LinkInv(s: Link) {
    && Inv(s.ring)
    && LogOk(s)
    && SendFramed(s)
    && (InStep(s) ==> RecvFramed(s))
  }

  ghost predicate LogOk(s: Link) {
    && s.ring.bufferSize >= HEADER_SIZE
    && s.ring.received <= s.ring.sent
    && (forall m | m in s.log :: Sendable(m))
    && (s.sender.SHeader? ==> Sendable(s.sender.m))
    && (forall i | i in s.cutReads :: 0 <= i < |s.outcomes|)
  }

  // ---- concatenated messages can be taken apart again ----

  lemma {:induction false} WirePrefix(n: nat, msgs: seq<Message>, cuts: set<int>, k: nat)
    requires k < |msgs|
    ensures Wire(n, msgs[..k], cuts) + (Header(msgs[k]) + Carried(n, msgs[k], k in cuts)) <= Wire(n, msgs, cuts)
    decreases |msgs|
  {
    var front := msgs[..|msgs| - 1];
    if k < |front| {
      WirePrefix(n, front, cuts, k);
      assert front[..k] == msgs[..k] && front[k] == msgs[k];
      assert Wire(n, front, cuts) <= Wire(n, msgs, cuts);
    }
  }

  lemma WireWhole(n: nat, msgs: seq<Message>, cuts: set<int>)
    ensures Wire(n, msgs[..|msgs|], cuts) == Wire(n, msgs, cuts)
  {
    assert msgs[..|msgs|] == msgs;
  }

  /** Only the cuts within the messages matter. */
  lemma {:induction false} WireSame(n: nat, msgs: seq<Message>, a: set<int>, b: set<int>)
    requires forall i | 0 <= i < |msgs| :: i in a <==> i in b
    ensures Wire(n, msgs, a) == Wire(n, msgs, b)
    decreases |msgs|
  {
    if msgs != [] { WireSame(n, msgs[..|msgs| - 1], a, b); }
  }

  /** Whatever eight bytes follow complete messages are the next message's header. */
  lemma NextHeader(n: nat, msgs: seq<Message>, cuts: set<int>, k: nat, out: seq<byte>)
    requires k < |msgs| && |out| == HEADER_SIZE
    requires Wire(n, msgs[..k], cuts) + out <= Wire(n, msgs, cuts)
    ensures out == Header(msgs[k])
  {
    WirePrefix(n, msgs, cuts, k);
    Associate(Wire(n, msgs[..k], cuts), Header(msgs[k]), Carried(n, msgs[k], k in cuts));
    SamePiece(Wire(n, msgs[..k], cuts), out, Header(msgs[k]), Wire(n, msgs, cuts));
  }

  lemma NextPayload(n: nat, msgs: seq<Message>, cuts: set<int>, k: nat, out: seq<byte>)
    requires k < |msgs| && |msgs[k].payload| == |out| <= n && k !in cuts
    requires Wire(n, msgs[..k], cuts) + Header(msgs[k]) + out <= Wire(n, msgs, cuts)
    ensures out == msgs[k].payload
  {
    WirePrefix(n, msgs, cuts, k);
    Associate(Wire(n, msgs[..k], cuts), Header(msgs[k]), msgs[k].payload);
    SamePiece(Wire(n, msgs[..k], cuts) + Header(msgs[k]), out, msgs[k].payload, Wire(n, msgs, cuts));
  }

  /** Two pieces of equal length that follow the same prefix of a sequence are the same. */
  lemma SamePiece(a: seq<byte>, x: seq<byte>, y: seq<byte>, whole: seq<byte>)
    requires |x| == |y| && a + x <= whole && a + y <= whole
    ensures x == y
  {
    forall i | 0 <= i < |x|
      ensures x[i] == y[i]
    {
      assert x[i] == (a + x)[|a| + i] == whole[|a| + i];
      assert y[i] == (a + y)[|a| + i] == whole[|a| + i];
    }
  }

  lemma WireSnoc(n: nat, msgs: seq<Message>, cuts: set<int>, k: nat)
    requires k < |msgs|
    ensures Wire(n, msgs[..k + 1], cuts)
         == Wire(n, msgs[..k], cuts) + (Header(msgs[k]) + Carried(n, msgs[k], k in cuts))
  {
    assert msgs[..k + 1][..k] == msgs[..k];
  }

  /** Where every cut of the receiver is matched, the messages it has behind it are as long
      for it as for the sender. */
  lemma SameCuts(s: Link, k: nat)
    requires k == |s.outcomes| <= |s.log| && InStep(s) && forall i | i in s.cutReads && i < |s.log| :: Matched(s, i)
    requires k < |s.log|
    ensures Wire(s.ring.bufferSize, s.log[..k], s.cutReads) == Wire(s.ring.bufferSize, s.log[..k], s.cutSends)
  {
    WireSame(s.ring.bufferSize, s.log[..k], s.cutReads, s.cutSends);
  }

  /** A receiver that has all logged messages behind it is at the end of what was sent. */
  lemma AllBehind(s: Link)
    requires LogOk(s) && SendFramed(s) && |s.outcomes| == |s.log| && InStep(s)
    requires forall i | i in s.cutReads && i < |s.log| :: Matched(s, i)
    ensures |Wire(s.ring.bufferSize, s.log, s.cutReads)| >= |s.ring.sent|
  {
    var n, last := s.ring.bufferSize, |s.log| - 1;
    if last in s.cutReads && last !in s.cutSends {
      WireSame(n, s.log[..last], s.cutReads, s.cutSends);
      assert s.ring.sent + Body(n, s.log[last])
          == Wire(n, s.log[..last], s.cutSends) + (Header(s.log[last]) + Body(n, s.log[last]));
    } else {
      WireSame(n, s.log, s.cutReads, s.cutSends);
    }
  }

  // ---- every step keeps the framing ----

  lemma RingInvKeeps(s: Link, step: LinkStep)
    requires Inv(s.ring) && LinkEnabled(s, step)
    ensures Inv(LinkDo(s, step).ring)
  {
    match step
    case StartSend(m) => StepKeeps(s.ring, CallWrite(Header(m)));
    case HeaderWritten =>
      StepKeeps(s.ring, ReturnWrite);
      if s.ring.writer.ok && |s.sender.m.payload| > 0 {
        StepKeeps(Do(s.ring, ReturnWrite), CallWrite(s.sender.m.payload));
      }
    case PayloadWritten => StepKeeps(s.ring, ReturnWrite);
    case StartRecv => StepKeeps(s.ring, CallRead(HEADER_SIZE));
    case HeaderRead =>
      StepKeeps(s.ring, ReturnRead);
      if s.ring.reader.ok && DecodeInt(s.ring.reader.out[4..]) > 0 {
        StepKeeps(Do(s.ring, ReturnRead), CallRead(DecodeInt(s.ring.reader.out[4..])));
      }
    case PayloadRead => StepKeeps(s.ring, ReturnRead);
    case RingStep(r) => StepKeeps(s.ring, r);
    case FinishSend =>
    case FinishRecv =>
  }

  predicate IsSenderStep(step: LinkStep) {
    step.StartSend? || step.HeaderWritten? || step.PayloadWritten? || step.FinishSend?
  }

  /** A payload that is cut is owed no longer, for the sender has left its message a header. */
  lemma PayloadWrittenKeeps(s: Link)
    requires SendFramed(s) && LinkEnabled(s, PayloadWritten)
    ensures SendFramed(LinkDo(s, PayloadWritten))
  {
    var n, s', last := s.ring.bufferSize, LinkDo(s, PayloadWritten), |s.log| - 1;
    assert Owed(s') == [];
    if s'.cutSends != s.cutSends {
      CutIsNotOwed(n, s.log, s.cutSends, s.ring.sent);
    } else {
      assert Owed(s) == [];
    }
  }

  lemma CutIsNotOwed(n: nat, log: seq<Message>, cuts: set<int>, sent: seq<byte>)
    requires log != [] && |log| - 1 !in cuts && sent + Body(n, log[|log| - 1]) == Wire(n, log, cuts)
    ensures sent + [] == Wire(n, log, cuts + {|log| - 1})
  {
    var last := |log| - 1;
    WireSame(n, log[..last], cuts, cuts + {last});
    Associate(Wire(n, log[..last], cuts), Header(log[last]), Body(n, log[last]));
    assert Header(log[last]) + [] == Header(log[last]);
    SameFront(sent, Wire(n, log[..last], cuts) + Header(log[last]), Body(n, log[last]));
  }

  lemma SameFront(a: seq<byte>, b: seq<byte>, c: seq<byte>)
    requires a + c == b + c
    ensures a == b && a + [] == b
  {
    assert |a| == |b|;
    assert a == (a + c)[..|a|] && b == (b + c)[..|b|];
  }

  lemma SenderStepKeeps(s: Link, step: LinkStep)
    requires SendFramed(s) && LinkEnabled(s, step) && IsSenderStep(step)
    requires s.ring.bufferSize >= HEADER_SIZE
    ensures SendFramed(LinkDo(s, step))
  {
    if step.PayloadWritten? { PayloadWrittenKeeps(s); }
  }

  predicate IsReceiverStep(step: LinkStep) {
    step.StartRecv? || step.HeaderRead? || step.PayloadRead? || step.FinishRecv?
  }

  lemma ReceiverStepFrame(s: Link, step: LinkStep)
    requires LinkEnabled(s, step) && IsReceiverStep(step)
    ensures var s' := LinkDo(s, step);
      && s'.ring.writer == s.ring.writer && s'.ring.sent == s.ring.sent
      && s'.ring.received == s.ring.received && s'.ring.bufferSize == s.ring.bufferSize
      && s'.sender == s.sender && s'.log == s.log && s'.cutSends == s.cutSends
  {
  }

  lemma RecvStartKeeps(s: Link, step: LinkStep)
    requires RecvFramed(s) && LinkEnabled(s, step)
    requires s.ring.bufferSize >= HEADER_SIZE
    requires step.StartRecv? || step.FinishRecv?
    ensures RecvFramed(LinkDo(s, step))
  {
  }

  /** The header just read is the header of the next logged message. */
  lemma HeaderReadIsNext(s: Link)
    requires LogOk(s) && SendFramed(s) && InStep(s) && RecvFramed(s) && LinkEnabled(s, HeaderRead) && s.ring.reader.ok
    ensures var k, out := |s.outcomes|, s.ring.reader.out;
      && k < |s.log| && out == Header(s.log[k]) && Sendable(s.log[k])
      && DecodeInt(out[..4]) == s.log[k].code && DecodeInt(out[4..]) == |s.log[k].payload|
      && s.ring.received == Wire(s.ring.bufferSize, s.log[..k], s.cutReads) + Header(s.log[k])
  {
    var n, k, out := s.ring.bufferSize, |s.outcomes|, s.ring.reader.out;
    if k == |s.log| {
      AllBehind(s);
      WireWhole(n, s.log, s.cutReads);
    } else {
      SameCuts(s, k);
      NextHeader(n, s.log, s.cutSends, k, out);
      HeaderRoundTrip(s.log[k]);
    }
  }

  /** What the step leaves, case by case. */
  lemma HeaderReadEffect(s: Link)
    requires LinkEnabled(s, HeaderRead)
    ensures var s', out := LinkDo(s, HeaderRead), s.ring.reader.out;
      && s'.ring.bufferSize == s.ring.bufferSize && s'.ring.received == s.ring.received
      && s'.log == s.log && s'.cutReads == s.cutReads
      && (if s.ring.reader.ok && DecodeInt(out[4..]) > 0 then
            && s'.receiver == VPayload(DecodeInt(out[..4]), DecodeInt(out[4..])) && s'.outcomes == s.outcomes
            && s'.ring.reader == (if DecodeInt(out[4..]) > s.ring.bufferSize then RReturned([], false)
                                  else RWait(DecodeInt(out[4..])))
          else
            && s'.receiver == VReturned && s'.ring.reader == RIdle
            && s'.outcomes == if s.ring.reader.ok then s.outcomes + [Got(Message(DecodeInt(out[..4]), []))]
                              else s.outcomes)
  {
  }

  /** One more outcome, the right one. */
  lemma RightGrows(s: Link, s': Link, o: Outcome)
    requires Right(s) && |s.outcomes| < |s.log| && s'.log == s.log && s'.ring.bufferSize == s.ring.bufferSize
    requires s'.outcomes == s.outcomes + [o]
    requires s'.cutReads == s.cutReads || s'.cutReads == s.cutReads + {|s.outcomes|}
    requires o == if |s.outcomes| in s'.cutReads then Lost else Expected(s.ring.bufferSize, s.log[|s.outcomes|])
    ensures Right(s')
  {
  }

  lemma NoHeaderKeeps(s: Link, s': Link)
    requires RecvFramed(s) && s.receiver.VHeader? && s.ring.reader.RReturned? && !s.ring.reader.ok
    requires s'.ring.bufferSize == s.ring.bufferSize && s'.ring.received == s.ring.received
    requires s'.log == s.log && s'.cutReads == s.cutReads && s'.outcomes == s.outcomes
    requires s'.receiver == VReturned && s'.ring.reader == RIdle
    ensures RecvFramed(s')
  {
  }

  lemma WireOfEmpty(n: nat, msgs: seq<Message>, cuts: set<int>, k: nat)
    requires k < |msgs| && msgs[k].payload == []
    ensures Wire(n, msgs[..k + 1], cuts) + [] == Wire(n, msgs[..k], cuts) + Header(msgs[k])
  {
    WireSnoc(n, msgs, cuts, k);
    assert Carried(n, msgs[k], k in cuts) == [];
    assert Header(msgs[k]) + [] == Header(msgs[k]);
  }

  lemma HeaderAloneKeeps(s: Link, s': Link)
    requires LogOk(s) && RecvFramed(s) && |s.outcomes| < |s.log| && s.log[|s.outcomes|].payload == []
    requires s.ring.received == Wire(s.ring.bufferSize, s.log[..|s.outcomes|], s.cutReads) + Header(s.log[|s.outcomes|])
    requires s'.ring.bufferSize == s.ring.bufferSize && s'.ring.received == s.ring.received
    requires s'.log == s.log && s'.cutReads == s.cutReads
    requires s'.outcomes == s.outcomes + [Got(s.log[|s.outcomes|])]
    requires s'.receiver == VReturned && s'.ring.reader == RIdle
    ensures RecvFramed(s')
  {
    RightGrows(s, s', Got(s.log[|s.outcomes|]));
    WireOfEmpty(s.ring.bufferSize, s.log, s.cutReads, |s.outcomes|);
  }

  lemma PayloadFollowsKeeps(s: Link, s': Link)
    requires RecvFramed(s) && |s.outcomes| < |s.log| && |s.log[|s.outcomes|].payload| > 0
    requires s.ring.received == Wire(s.ring.bufferSize, s.log[..|s.outcomes|], s.cutReads) + Header(s.log[|s.outcomes|])
    requires s'.ring.bufferSize == s.ring.bufferSize && s'.ring.received == s.ring.received
    requires s'.log == s.log && s'.cutReads == s.cutReads && s'.outcomes == s.outcomes
    requires s'.receiver == VPayload(s.log[|s.outcomes|].code, |s.log[|s.outcomes|].payload|)
    requires s'.ring.reader == if s'.receiver.size > s.ring.bufferSize then RReturned([], false)
                               else RWait(s'.receiver.size)
    ensures RecvFramed(s')
  {
    var m := s.log[|s.outcomes|];
    assert Header(m) + [] == Header(m);
  }

  lemma HeaderReadKeeps(s: Link)
    requires LogOk(s) && SendFramed(s) && InStep(s) && RecvFramed(s) && LinkEnabled(s, HeaderRead)
    ensures RecvFramed(LinkDo(s, HeaderRead))
  {
    var s' := LinkDo(s, HeaderRead);
    HeaderReadEffect(s);
    if !s.ring.reader.ok {
      NoHeaderKeeps(s, s');
    } else {
      HeaderReadIsNext(s);
      var m := s.log[|s.outcomes|];
      if |m.payload| == 0 {
        assert m == Message(m.code, []);
        HeaderAloneKeeps(s, s');
      } else {
        PayloadFollowsKeeps(s, s');
      }
    }
  }

  /** The payload just read is the payload of the next logged message. */
  lemma PayloadReadIsNext(s: Link)
    requires LogOk(s) && SendFramed(s) && InStep(s) && RecvFramed(s) && LinkEnabled(s, PayloadRead) && s.ring.reader.ok
    ensures var k, out := |s.outcomes|, s.ring.reader.out;
      && out == s.log[k].payload && |out| <= s.ring.bufferSize
      && s.ring.received == Wire(s.ring.bufferSize, s.log[..k + 1], s.cutReads)
  {
    var n, k, out := s.ring.bufferSize, |s.outcomes|, s.ring.reader.out;
    SameCuts(s, k);
    Associate(Wire(n, s.log[..k], s.cutReads), Header(s.log[k]), out);
    NextPayload(n, s.log, s.cutSends, k, out);
    WireSnoc(n, s.log, s.cutReads, k);
  }

  lemma LostIsHeaderOnly(s: Link, k: nat)
    requires LogOk(s) && k == |s.outcomes| && RecvFramed(s) && s.receiver.VPayload?
    requires s.ring.reader.RReturned? && !s.ring.reader.ok
    ensures var n := s.ring.bufferSize;
      var cuts := if s.receiver.size <= n then s.cutReads + {k} else s.cutReads;
      s.ring.received == Wire(n, s.log[..k + 1], cuts) + []
  {
    var n, m := s.ring.bufferSize, s.log[k];
    var cuts := if s.receiver.size <= n then s.cutReads + {k} else s.cutReads;
    WireSame(n, s.log[..k], s.cutReads, cuts);
    WireSnoc(n, s.log, cuts, k);
    assert Header(m) + [] == Header(m);
  }

  lemma PayloadLostKeeps(s: Link, s': Link)
    requires LogOk(s) && RecvFramed(s) && s.receiver.VPayload? && s.ring.reader.RReturned? && !s.ring.reader.ok
    requires s'.ring.bufferSize == s.ring.bufferSize && s'.ring.received == s.ring.received && s'.log == s.log
    requires s'.cutReads == if s.receiver.size <= s.ring.bufferSize then s.cutReads + {|s.outcomes|} else s.cutReads
    requires s'.outcomes == s.outcomes + [Lost] && s'.receiver == VReturned && s'.ring.reader == RIdle
    ensures RecvFramed(s')
  {
    RightGrows(s, s', Lost);
    LostIsHeaderOnly(s, |s.outcomes|);
  }

  lemma PayloadReadKeeps(s: Link)
    requires LogOk(s) && SendFramed(s) && InStep(s) && RecvFramed(s) && LinkEnabled(s, PayloadRead)
    ensures RecvFramed(LinkDo(s, PayloadRead))
  {
    var s' := LinkDo(s, PayloadRead);
    if s.ring.reader.ok {
      PayloadReadIsNext(s);
      assert s.log[|s.outcomes|] == Message(s.receiver.code, s.ring.reader.out);
    } else {
      PayloadLostKeeps(s, s');
    }
  }

  lemma PublishHeaderFramed(s: Link, s': Link)
    requires SendFramed(s) && LinkEnabled(s, RingStep(PublishTail)) && s.sender.SHeader?
    requires s'.ring.bufferSize == s.ring.bufferSize && s'.sender == s.sender && s'.cutSends == s.cutSends
    requires s'.ring.sent == s.ring.sent + s.ring.writer.data && s'.ring.writer == WReturned(s.ring.writer.data, true)
    requires s'.log == s.log + [s.sender.m]
    ensures SendFramed(s')
  {
    assert |s.log| !in s.cutSends;
  }

  lemma PublishTailFramed(s: Link)
    requires SendFramed(s) && LinkEnabled(s, RingStep(PublishTail))
    ensures SendFramed(LinkDo(s, RingStep(PublishTail)))
  {
    if s.sender.SHeader? { PublishHeaderFramed(s, LinkDo(s, RingStep(PublishTail))); }
  }

  lemma LongerLog(s: Link, m: Message)
    requires RecvFramed(s) && LogOk(s)
    ensures RecvFramed(s.(log := s.log + [m]))
  {
    var k := |s.outcomes|;
    assert (s.log + [m])[..k] == s.log[..k];
  }

  lemma PublishTailLeavesReceiver(s: Link)
    requires RecvFramed(s) && LogOk(s) && LinkEnabled(s, RingStep(PublishTail))
    ensures RecvFramed(LinkDo(s, RingStep(PublishTail)))
  {
    if s.sender.SHeader? { LongerLog(s, s.sender.m); }
  }

  lemma PublishHeadFramed(s: Link)
    requires RecvFramed(s) && LinkEnabled(s, RingStep(PublishHead))
    requires |s.ring.reader.out| == s.ring.reader.size
    ensures RecvFramed(LinkDo(s, RingStep(PublishHead)))
  {
    var n, k := s.ring.bufferSize, |s.outcomes|;
    if s.receiver.VPayload? {
      var a, h, out := Wire(n, s.log[..k], s.cutReads), Header(s.log[k]), s.ring.reader.out;
      assert a + (h + []) + out == a + (h + out);
    } else if s.receiver.VHeader? {
      assert Wire(n, s.log[..k], s.cutReads) + [] == Wire(n, s.log[..k], s.cutReads);
    }
  }

  predicate IsWriterStep(r: Step) {
    r.LoadHead? || r.DecideWrite? || r.SpinWrite? || r.WriteByte?
  }

  lemma ReaderStepFramed(s: Link, s': Link)
    requires RecvFramed(s)
    requires s' == s.(ring := s.ring.(reader := s'.ring.reader, exit := s'.ring.exit))
    requires !s.ring.reader.RIdle? && !s.ring.reader.RReturned? && !s'.ring.reader.RIdle?
    requires if s'.ring.reader.RReturned? then !s'.ring.reader.ok else s'.ring.reader.size == s.ring.reader.size
    ensures RecvFramed(s')
  {
    assert Partial(s'.ring.reader) == Partial(s.ring.reader);
  }

  lemma SameSendView(s: Link, s': Link)
    requires SendFramed(s)
    requires s'.ring.writer == s.ring.writer && s'.ring.sent == s.ring.sent && s'.ring.bufferSize == s.ring.bufferSize
    requires s'.sender == s.sender && s'.log == s.log && s'.cutSends == s.cutSends
    ensures SendFramed(s')
  {
    assert Owed(s') == Owed(s);
  }

  lemma SameRecvView(s: Link, s': Link)
    requires RecvFramed(s)
    requires s'.ring.reader == s.ring.reader && s'.ring.received == s.ring.received
        && s'.ring.bufferSize == s.ring.bufferSize
    requires s'.receiver == s.receiver && s'.log == s.log && s'.outcomes == s.outcomes && s'.cutReads == s.cutReads
    ensures RecvFramed(s')
  {
  }

  lemma RingStepSendFramed(s: Link, r: Step)
    requires SendFramed(s) && LinkEnabled(s, RingStep(r))
    ensures SendFramed(LinkDo(s, RingStep(r)))
  {
    var s' := LinkDo(s, RingStep(r));
    if r == PublishTail {
      PublishTailFramed(s);
    } else if !IsWriterStep(r) {
      SameSendView(s, s');
    }
  }

  lemma RingStepRecvFramed(s: Link, r: Step)
    requires LogOk(s) && RecvFramed(s) && LinkEnabled(s, RingStep(r))
    requires s.ring.reader.RCopy? ==> |s.ring.reader.out| == s.ring.reader.size
    ensures RecvFramed(LinkDo(s, RingStep(r)))
  {
    var s' := LinkDo(s, RingStep(r));
    if r == PublishTail {
      PublishTailLeavesReceiver(s);
    } else if r == PublishHead {
      PublishHeadFramed(s);
    } else if IsWriterStep(r) {
      SameRecvView(s, s');
    } else {
      if s'.ring.reader == s.ring.reader { SameRecvView(s, s'); } else { ReaderStepFramed(s, s'); }
    }
  }

  lemma SendFramingKeeps(s: Link, step: LinkStep)
    requires LogOk(s) && SendFramed(s) && LinkEnabled(s, step)
    ensures SendFramed(LinkDo(s, step))
  {
    if step.RingStep? {
      RingStepSendFramed(s, step.step);
    } else if IsSenderStep(step) {
      SenderStepKeeps(s, step);
    } else {
      ReceiverStepFrame(s, step);
      SameSendView(s, LinkDo(s, step));
    }
  }

  lemma RecvFramingKeeps(s: Link, step: LinkStep)
    requires LogOk(s) && SendFramed(s) && InStep(s) && RecvFramed(s) && LinkEnabled(s, step)
    requires s.ring.reader.RCopy? ==> |s.ring.reader.out| == s.ring.reader.size
    ensures RecvFramed(LinkDo(s, step))
  {
    if step.RingStep? {
      RingStepRecvFramed(s, step.step);
    } else if IsSenderStep(step) {
      SameRecvView(s, LinkDo(s, step));
    } else {
      match step
      case HeaderRead => HeaderReadKeeps(s);
      case PayloadRead => PayloadReadKeeps(s);
      case _ => RecvStartKeeps(s, step);
    }
  }

  // ---- once out of step, always out of step ----

  lemma RingStepBack(s: Link, r: Step)
    requires LinkEnabled(s, RingStep(r)) && InStep(LinkDo(s, RingStep(r)))
    ensures InStep(s)
  {
  }

  lemma SenderStepBack(s: Link, step: LinkStep)
    requires SendFramed(s) && LinkEnabled(s, step) && IsSenderStep(step) && InStep(LinkDo(s, step))
    ensures InStep(s)
  {
  }

  lemma ReceiverStepBack(s: Link, step: LinkStep)
    requires LogOk(s) && LinkEnabled(s, step) && IsReceiverStep(step) && InStep(LinkDo(s, step))
    ensures InStep(s)
  {
  }

  lemma LogKeeps(s: Link, step: LinkStep)
    requires LogOk(s) && LinkEnabled(s, step)
    requires LinkDo(s, step).ring.received <= LinkDo(s, step).ring.sent
    ensures LogOk(LinkDo(s, step))
  {
  }

  lemma LinkStepKeeps(s: Link, step: LinkStep)
    requires LinkInv(s) && LinkEnabled(s, step)
    ensures LinkInv(LinkDo(s, step))
  {
    var s' := LinkDo(s, step);
    RingInvKeeps(s, step);
    LogKeeps(s, step);
    SendFramingKeeps(s, step);
    if InStep(s') {
      if step.RingStep? {
        RingStepBack(s, step.step);
      } else if IsSenderStep(step) {
        SenderStepBack(s, step);
      } else {
        ReceiverStepBack(s, step);
      }
      RecvFramingKeeps(s, step);
    }
  }

  lemma {:induction false} LinkRunKeeps(run: seq<Link>, steps: seq<LinkStep>, i: nat)
    requires IsLinkRun(run, steps) && i < |run|
    ensures LinkInv(run[i])
  {
    if i == 0 {
      InitKeeps(run[0].ring);
    } else {
      LinkRunKeeps(run, steps, i - 1);
      LinkStepKeeps(run[i - 1], steps[i - 1]);
    }
  }

  // ---- what the link promises ----

  /** Message round trip, over every interleaving, as long as the two sides are in step:
      vt_recv delivers, in order, exactly the messages whose header entered the ring,
      header and payload intact. A payload larger than the ring is reported lost, as is
      one that vt_recv was cut at, and neither disturbs its neighbours. */
  lemma MessagesRoundTrip(run: seq<Link>, steps: seq<LinkStep>, i: nat)
    requires IsLinkRun(run, steps) && i < |run| && InStep(run[i])
    ensures Right(run[i])
  {
    LinkRunKeeps(run, steps, i);
  }

  /** A blocked thread: inside the wait loop, and the counters say it must go round again. */
  predicate WriterBlocked(r: Ring) {
    (r.writer.WWait? || r.writer.WSeen? || r.writer.WSpin?)
    && FreeSpace(r.bufferSize, r.head, r.tail) < |r.writer.data|
  }

  predicate ReaderBlocked(r: Ring) {
    (r.reader.RWait? || r.reader.RSeen? || r.reader.RSpin?)
    && Size(r.head, r.tail) < r.reader.size
  }

  lemma NothingUnread(s: Link)
    requires LogOk(s) && SendFramed(s) && Aligned(s) && RecvFramed(s) && |s.outcomes| == |s.log|
    requires s.receiver.VHeader? && !s.ring.reader.RReturned?
    ensures |s.ring.sent| == |s.ring.received|
  {
    AllBehind(s);
    WireWhole(s.ring.bufferSize, s.log, s.cutReads);
  }

  /** The fill of the ring is nothing, or at least the chunk the receiver waits for. */
  lemma WholeChunks(s: Link)
    requires LogOk(s) && SendFramed(s) && Aligned(s) && RecvFramed(s)
    requires s.ring.reader.RWait? || s.ring.reader.RSeen? || s.ring.reader.RSpin?
    ensures |s.ring.sent| == |s.ring.received| || |s.ring.sent| - |s.ring.received| >= s.ring.reader.size
  {
    var n, k := s.ring.bufferSize, |s.outcomes|;
    if k == |s.log| {
      NothingUnread(s);
    } else {
      SameCuts(s, k);
      PublishedLength(n, s.log, s.cutSends, k, Owed(s));
    }
  }

  lemma PublishedLength(n: nat, log: seq<Message>, cuts: set<int>, k: nat, owed: seq<byte>)
    requires k < |log|
    requires owed == [] || (owed == Body(n, log[|log| - 1]) && |log| - 1 !in cuts)
    ensures var published := |Wire(n, log, cuts)| - |owed| - |Wire(n, log[..k], cuts)| - HEADER_SIZE;
      && (published == 0 || published >= |Carried(n, log[k], k in cuts)|)
      && (k == |log| - 1 && k in cuts ==> published == 0)
    ensures |Wire(n, log, cuts)| - |owed| - |Wire(n, log[..k], cuts)| >= HEADER_SIZE
  {
    WirePrefix(n, log, cuts, k);
    if k < |log| - 1 {
      WirePrefix(n, log, cuts, |log| - 1);
      WireLongerThanPrefix(n, log, cuts, k);
    }
  }

  lemma WireLongerThanPrefix(n: nat, msgs: seq<Message>, cuts: set<int>, k: nat)
    requires k < |msgs| - 1
    ensures |Wire(n, msgs[..k], cuts)| + |Header(msgs[k])| + |Carried(n, msgs[k], k in cuts)|
         <= |Wire(n, msgs[..|msgs| - 1], cuts)|
  {
    var front := msgs[..|msgs| - 1];
    assert front[..k] == msgs[..k];
    WirePrefix(n, front, cuts, k);
  }

  /** Over every interleaving, as long as no side has gone on past a message that only it was
      cut at, a receiver that waits finds the ring empty or finds at least the whole header
      or payload that it waits for. */
  lemma AlwaysWholeChunks(run: seq<Link>, steps: seq<LinkStep>, i: nat)
    requires IsLinkRun(run, steps) && i < |run| && Aligned(run[i])
    requires run[i].ring.reader.RWait? || run[i].ring.reader.RSeen? || run[i].ring.reader.RSpin?
    ensures var r := run[i].ring;
      |r.sent| == |r.received| || |r.sent| - |r.received| >= r.reader.size
  {
    LinkRunKeeps(run, steps, i);
    WholeChunks(run[i]);
  }

  ghost predicate BothBlocked(s: Link) {
    WriterBlocked(s.ring) && ReaderBlocked(s.ring)
  }

  lemma NotBothBlocked(s: Link)
    requires LinkInv(s) && Aligned(s)
    ensures !BothBlocked(s)
  {
    PublishedFreeSpace(s.ring);
    if BothBlocked(s) {
      WholeChunks(s);
    }
  }

  /** Deadlock freedom, over every interleaving and under the same condition: sender and
      receiver are never both stuck in their wait loops. */
  lemma NeverBothBlocked(run: seq<Link>, steps: seq<LinkStep>, i: nat)
    requires IsLinkRun(run, steps) && i < |run| && Aligned(run[i])
    ensures !BothBlocked(run[i])
  {
    LinkRunKeeps(run, steps, i);
    NotBothBlocked(run[i]);
  }

  // ---- a discipline that keeps the sides in step ----

  /** Neither side starts another call after one of its own payloads was cut. */
  ghost predicate StopsWhenCut(run: seq<Link>, steps: seq<LinkStep>)
    requires IsLinkRun(run, steps)
  {
    forall h | 0 <= h < |steps| ::
      && (steps[h].StartSend? ==> run[h].cutSends == {})
      && (steps[h].StartRecv? ==> run[h].cutReads == {})
  }

  ghost predicate Stopped(s: Link) {
    && (s.cutSends != {} ==> s.cutSends == {|s.log| - 1} && (s.sender.SIdle? || s.sender.SReturned?))
    && (s.cutReads != {} ==> s.cutReads == {|s.outcomes| - 1} && (s.receiver.VIdle? || s.receiver.VReturned?))
  }

  lemma StoppedKeeps(s: Link, step: LinkStep)
    requires Stopped(s) && LinkEnabled(s, step)
    requires (step.StartSend? ==> s.cutSends == {}) && (step.StartRecv? ==> s.cutReads == {})
    ensures Stopped(LinkDo(s, step))
  {
  }

  lemma OwedIsMissing(s: Link)
    requires SendFramed(s) && Owes(s) && Owed(s) != []
    ensures var n, last := s.ring.bufferSize, |s.log| - 1;
      && last >= 0 && last !in s.cutSends
      && |s.ring.sent| == |Wire(n, s.log[..last], s.cutSends)| + HEADER_SIZE
      && |Wire(n, s.log, s.cutSends)| > |s.ring.sent|
  {
    var n, last := s.ring.bufferSize, |s.log| - 1;
    assert |s.ring.sent| + |Owed(s)| == |Wire(n, s.log, s.cutSends)|;
  }

  lemma OwedIsNotPassed(s: Link)
    requires LinkInv(s) && InStep(s) && Owes(s) && Owed(s) != [] && |s.outcomes| == |s.log|
    ensures |s.log| - 1 in s.cutReads
  {
    var n, last := s.ring.bufferSize, |s.log| - 1;
    OwedIsMissing(s);
    WireWhole(n, s.log, s.cutReads);
    if last !in s.cutReads { WireSame(n, s.log, s.cutReads, s.cutSends); }
  }

  lemma OwedIsNotHeld(s: Link)
    requires LinkInv(s) && InStep(s) && Owes(s) && Owed(s) != [] && |s.outcomes| == |s.log| - 1
    ensures !(s.receiver.VPayload? && s.ring.reader.RReturned? && s.ring.reader.ok)
  {
    if s.receiver.VPayload? && s.ring.reader.RReturned? && s.ring.reader.ok {
      OwedIsMissing(s);
      WireSame(s.ring.bufferSize, s.log[..|s.outcomes|], s.cutReads, s.cutSends);
    }
  }

  /** The receiver has not got past a message whose payload is still owed. */
  lemma OwedIsNotRead(s: Link)
    requires LinkInv(s) && InStep(s) && Owes(s) && Owed(s) != []
    ensures var last := |s.log| - 1;
      && (|s.outcomes| <= last || last in s.cutReads)
      && (s.receiver.VPayload? && s.ring.reader.RReturned? && s.ring.reader.ok ==> |s.outcomes| != last)
  {
    if |s.outcomes| == |s.log| {
      OwedIsNotPassed(s);
    } else if |s.outcomes| == |s.log| - 1 {
      OwedIsNotHeld(s);
    }
  }

  lemma CutEndsTheStream(s: Link)
    requires SendFramed(s) && s.log != [] && |s.log| - 1 in s.cutSends
    ensures |s.ring.sent| == |Wire(s.ring.bufferSize, s.log[..|s.log| - 1], s.cutSends)| + HEADER_SIZE
  {
    assert !Owes(s);
    assert |s.ring.sent| == |Wire(s.ring.bufferSize, s.log, s.cutSends)|;
  }

  /** A payload that was cut at its last message cannot be read. */
  lemma CutIsNotRead(s: Link)
    requires LinkInv(s) && InStep(s) && Stopped(s) && s.receiver.VPayload? && |s.outcomes| in s.cutSends
    ensures !s.ring.reader.RCopy?
  {
    var k := |s.outcomes|;
    if s.ring.reader.RCopy? {
      CutEndsTheStream(s);
      SameCuts(s, k);
      assert |s.ring.received| == |Wire(s.ring.bufferSize, s.log[..k], s.cutReads)| + HEADER_SIZE;
      ReaderHasRoom(s.ring);
    }
  }

  lemma ReaderHasRoom(r: Ring)
    requires Inv(r) && r.reader.RCopy?
    ensures |r.received| + r.reader.size <= |r.sent|
  {}

  lemma StoppedPayloadWritten(s: Link)
    requires LinkInv(s) && Stopped(s) && Aligned(s) && LinkEnabled(s, PayloadWritten)
    ensures Aligned(LinkDo(s, PayloadWritten))
  {
    if LinkDo(s, PayloadWritten).cutSends != s.cutSends { OwedIsNotRead(s); }
  }

  lemma StoppedSenderStep(s: Link, step: LinkStep)
    requires LinkInv(s) && Stopped(s) && Aligned(s) && LinkEnabled(s, step) && IsSenderStep(step)
    requires step.StartSend? ==> s.cutSends == {}
    ensures Aligned(LinkDo(s, step))
  {
    if step.PayloadWritten? { StoppedPayloadWritten(s); }
  }

  lemma StoppedHeaderAlone(s: Link, s': Link)
    requires SendFramed(s) && Aligned(s) && s.receiver.VHeader?
    requires s'.ring.writer == s.ring.writer && s'.sender == s.sender
    requires s'.log == s.log && s'.cutSends == s.cutSends && s'.cutReads == s.cutReads && s'.receiver == VReturned
    requires s'.outcomes == s.outcomes || (|s.outcomes| < |s.log| && s.log[|s.outcomes|].payload == []
                                           && exists o :: s'.outcomes == s.outcomes + [o])
    ensures Aligned(s')
  {
    forall i | i in s'.cutReads && i < |s'.log|
      ensures Matched(s', i)
    {
      assert Matched(s, i);
    }
  }

  lemma StoppedHeaderFollowed(s: Link, s': Link)
    requires Stopped(s) && Aligned(s) && s.receiver.VHeader? && |s.outcomes| < |s.log|
    requires s'.ring.writer == s.ring.writer && s'.sender == s.sender
    requires s'.log == s.log && s'.cutSends == s.cutSends && s'.cutReads == s.cutReads && s'.outcomes == s.outcomes
    requires s'.receiver.VPayload? && (s'.ring.reader.RReturned? ==> !s'.ring.reader.ok)
    ensures Aligned(s')
  {
    forall i | i in s'.cutReads && i < |s'.log|
      ensures Matched(s', i)
    {
      assert Matched(s, i);
    }
  }

  lemma StoppedHeaderRead(s: Link)
    requires LinkInv(s) && Stopped(s) && Aligned(s) && LinkEnabled(s, HeaderRead)
    ensures Aligned(LinkDo(s, HeaderRead))
  {
    var s' := LinkDo(s, HeaderRead);
    HeaderReadEffect(s);
    ReceiverStepFrame(s, HeaderRead);
    if s.ring.reader.ok { HeaderReadIsNext(s); }
    if s'.receiver.VPayload? {
      StoppedHeaderFollowed(s, s');
    } else {
      StoppedHeaderAlone(s, s');
    }
  }

  lemma StoppedReceiverStep(s: Link, step: LinkStep)
    requires LinkInv(s) && Stopped(s) && Aligned(s) && LinkEnabled(s, step) && IsReceiverStep(step)
    requires step.StartRecv? ==> s.cutReads == {}
    ensures Aligned(LinkDo(s, step))
  {
    if step.HeaderRead? { StoppedHeaderRead(s); }
  }

  lemma StoppedRingStep(s: Link, r: Step)
    requires LinkInv(s) && Stopped(s) && Aligned(s) && LinkEnabled(s, RingStep(r))
    ensures Aligned(LinkDo(s, RingStep(r)))
  {
    if s.receiver.VPayload? && |s.outcomes| in s.cutSends { CutIsNotRead(s); }
  }

  lemma StoppedStep(s: Link, step: LinkStep)
    requires LinkInv(s) && Stopped(s) && Aligned(s) && LinkEnabled(s, step)
    requires (step.StartSend? ==> s.cutSends == {}) && (step.StartRecv? ==> s.cutReads == {})
    ensures Aligned(LinkDo(s, step)) && Stopped(LinkDo(s, step))
  {
    StoppedKeeps(s, step);
    if step.RingStep? {
      StoppedRingStep(s, step.step);
    } else if IsSenderStep(step) {
      StoppedSenderStep(s, step);
    } else {
      StoppedReceiverStep(s, step);
    }
  }

  /** Whoever stops after being cut keeps the sides aligned, whatever the other one does: then
      every delivery is right and the two never block each other. */
  lemma {:induction false} StoppingIsEnough(run: seq<Link>, steps: seq<LinkStep>, i: nat)
    requires IsLinkRun(run, steps) && StopsWhenCut(run, steps) && i < |run|
    ensures Aligned(run[i]) && Stopped(run[i])
  {
    if i > 0 {
      var before, step := run[i - 1], steps[i - 1];
      StoppingIsEnough(run, steps, i - 1);
      LinkRunKeeps(run, steps, i - 1);
      StoppedStep(before, step);
    }
  }

  // ---- what vt_send returns ----

  /** Where the call of vt_send that started in `before` with `m` has got to. */
  ghost predicate SendSoFar(before: Link, m: Message, s: Link) {
    var n, w, payload := s.ring.bufferSize, s.ring.writer, m.payload;
    var begun := s.log == before.log && s.ring.sent == before.ring.sent && s.cutSends == before.cutSends;
    var headed := s.log == before.log + [m] && s.ring.sent == before.ring.sent + Header(m);
    var whole := s.log == before.log + [m] && s.ring.sent == before.ring.sent + Header(m) + payload;
    && s.calls == before.calls + [m]
    && n == before.ring.bufferSize
    && match s.sender
       case SIdle => true
       case SHeader(x) =>
         && x == m && !w.WIdle? && w.data == Header(m)
         && (if w.WReturned? && w.ok then headed && s.cutSends == before.cutSends else begun)
         && (w.WReturned? && !w.ok ==> s.ring.exit)
       case SPayload(x) =>
         && x == m && !w.WIdle? && w.data == payload && payload != [] && s.cutSends == before.cutSends
         && (if w.WReturned? && w.ok then whole && |payload| <= n else headed)
         && (w.WReturned? && !w.ok ==> s.ring.exit || |payload| > n)
         && (|payload| > n ==> w.WReturned?)
       case SReturned(r) => SendAnswer(before, m, s, r)
  }

  /** The four ways in which a call of vt_send ends. */
  ghost predicate SendAnswer(before: Link, m: Message, s: Link, r: int) {
    var n, sent, log := s.ring.bufferSize, before.ring.sent, before.log + [m];
    || (r == 0 && s.ring.exit && s.log == before.log && s.ring.sent == sent && s.cutSends == before.cutSends)
    || (r == 0 && (m.payload == [] || |m.payload| > n)
        && s.log == log && s.ring.sent == sent + Header(m) && s.cutSends == before.cutSends)
    || (r == 0 && 0 < |m.payload| <= n && s.ring.exit
        && s.log == log && s.ring.sent == sent + Header(m) && s.cutSends == before.cutSends + {|before.log|})
    || (r == |m.payload| && 0 < |m.payload| <= n
        && s.log == log && s.ring.sent == sent + Header(m) + m.payload && s.cutSends == before.cutSends)
  }

  lemma SendSoFarSender(before: Link, m: Message, s: Link, step: LinkStep)
    requires SendSoFar(before, m, s) && LinkEnabled(s, step) && IsSenderStep(step) && !step.StartSend?
    requires s.ring.bufferSize >= HEADER_SIZE
    ensures SendSoFar(before, m, LinkDo(s, step))
  {
  }

  lemma SendSoFarRing(before: Link, m: Message, s: Link, r: Step)
    requires SendSoFar(before, m, s) && LinkEnabled(s, RingStep(r)) && SendFramed(s)
    requires s.ring.bufferSize >= HEADER_SIZE
    ensures SendSoFar(before, m, LinkDo(s, RingStep(r)))
  {
  }

  lemma SendSoFarReceiver(before: Link, m: Message, s: Link, step: LinkStep)
    requires SendSoFar(before, m, s) && LinkEnabled(s, step) && IsReceiverStep(step)
    ensures SendSoFar(before, m, LinkDo(s, step))
  {
  }

  lemma {:induction false} SendRun(run: seq<Link>, steps: seq<LinkStep>, m: Message, h: nat, i: nat)
    requires IsLinkRun(run, steps) && h < i < |run| && steps[h] == StartSend(m)
    requires forall k | h < k < i :: !steps[k].StartSend?
    ensures SendSoFar(run[h], m, run[i])
  {
    LinkRunKeeps(run, steps, i - 1);
    if i > h + 1 {
      SendRun(run, steps, m, h, i - 1);
      var s, step := run[i - 1], steps[i - 1];
      if step.RingStep? { SendSoFarRing(run[h], m, s, step.step); }
      else if IsSenderStep(step) { SendSoFarSender(run[h], m, s, step); }
      else { SendSoFarReceiver(run[h], m, s, step); }
    }
  }

  /** Over every interleaving, a call of vt_send ends in one of four ways: EXIT stopped the
      header and nothing was sent; the header was sent and there was nothing to follow or
      the ring is too small for it; the header was sent and EXIT stopped the payload; or the
      whole message was sent. Only then is the result other than 0, the payload's length. */
  lemma SendReturns(run: seq<Link>, steps: seq<LinkStep>, m: Message, h: nat, i: nat)
    requires IsLinkRun(run, steps) && h < i < |run| && steps[h] == StartSend(m)
    requires (forall k | h < k < i :: !steps[k].StartSend?) && run[i].sender.SReturned?
    ensures run[i].calls == run[h].calls + [m]
    ensures
      var n, log, sent := run[h].ring.bufferSize, run[h].log, run[h].ring.sent;
      var s, r := run[i], run[i].sender.result;
      || (s.log == log && s.ring.sent == sent && s.cutSends == run[h].cutSends && r == 0 && s.ring.exit)
      || (s.log == log + [m] && s.ring.sent == sent + Header(m) && s.cutSends == run[h].cutSends
          && r == 0 && (m.payload == [] || |m.payload| > n))
      || (s.log == log + [m] && s.ring.sent == sent + Header(m) && s.cutSends == run[h].cutSends + {|log|}
          && r == 0 && s.ring.exit && 0 < |m.payload| <= n)
      || (s.log == log + [m] && s.ring.sent == sent + Header(m) + m.payload && s.cutSends == run[h].cutSends
          && r == |m.payload| && 0 < |m.payload| <= n)
  {
    SendRun(run, steps, m, h, i);
  }

  lemma {:induction false} LastStart(run: seq<Link>, steps: seq<LinkStep>, i: nat) returns (h: nat)
    requires IsLinkRun(run, steps) && i < |run| && !run[i].sender.SIdle?
    ensures h < i && steps[h].StartSend? && forall k | h < k < i :: !steps[k].StartSend?
  {
    if steps[i - 1].StartSend? { h := i - 1; } else { h := LastStart(run, steps, i - 1); }
  }

  lemma NothingOwed(s: Link)
    requires SendFramed(s) && s.sender.SReturned?
    ensures s.ring.sent == Wire(s.ring.bufferSize, s.log, s.cutSends)
    ensures forall i | i in s.cutSends :: 0 <= i < |s.log|
  {
    assert s.ring.sent + [] == s.ring.sent;
  }

  lemma AnswerMeansSent(before: Link, m: Message, s: Link)
    requires SendFramed(before) && SendFramed(s)
    requires s.sender.SReturned? && SendAnswer(before, m, s, s.sender.result)
    ensures !s.ring.exit ==> s.sender.result == if |m.payload| <= s.ring.bufferSize then |m.payload| else 0
    ensures s.sender.result != 0 ==>
      && s.log == before.log + [m] && |s.log| - 1 !in s.cutSends
      && s.ring.sent == Wire(s.ring.bufferSize, s.log, s.cutSends) && s.sender.result == |m.payload|
  {
    NothingOwed(s);
  }

  /** The result that callers compare with the payload's length. With EXIT unset it is that
      length if the payload fits the ring and 0 if it does not; with EXIT set it is other
      than 0 only for a message that is in the stream as a whole. */
  lemma ResultMeansSent(run: seq<Link>, steps: seq<LinkStep>, i: nat)
    requires IsLinkRun(run, steps) && i < |run| && run[i].sender.SReturned?
    ensures run[i].calls != []
    ensures var s := run[i]; var m := s.calls[|s.calls| - 1];
      !s.ring.exit ==> s.sender.result == if |m.payload| <= s.ring.bufferSize then |m.payload| else 0
    ensures var s := run[i]; var m := s.calls[|s.calls| - 1];
      s.sender.result != 0 ==>
        && s.log != [] && s.log[|s.log| - 1] == m && |s.log| - 1 !in s.cutSends
        && s.ring.sent == Wire(s.ring.bufferSize, s.log, s.cutSends) && s.sender.result == |m.payload|
  {
    var h := LastStart(run, steps, i);
    var m := steps[h].m;
    SendRun(run, steps, m, h, i);
    LinkRunKeeps(run, steps, h);
    LinkRunKeeps(run, steps, i);
    AnswerMeansSent(run[h], m, run[i]);
  }

  // ---- without EXIT ----

  /** While EXIT is unset, nothing is cut off and every call reaches the log. */
  ghost predicate Undisturbed(s: Link) {
    !s.ring.exit ==>
      && s.cutSends == {} && s.cutReads == {}
      && (if s.sender.SHeader? && !(s.ring.writer.WReturned? && s.ring.writer.ok)
          then s.calls == s.log + [s.sender.m] else s.calls == s.log)
      && (s.ring.writer.WReturned? && !s.ring.writer.ok ==> |s.ring.writer.data| > s.ring.bufferSize)
      && (s.sender.SHeader? ==> !s.ring.writer.WIdle? && |s.ring.writer.data| == HEADER_SIZE)
      && (s.sender.SPayload? ==> !s.ring.writer.WIdle? && s.ring.writer.data == s.sender.m.payload)
      && (s.receiver.VPayload? && s.ring.reader.RReturned? && !s.ring.reader.ok ==> s.receiver.size > s.ring.bufferSize)
      && (s.receiver.VPayload? && !s.ring.reader.RReturned? ==>
            s.ring.reader.RIdle? || s.ring.reader.size == s.receiver.size)
  }

  lemma UndisturbedRingStep(s: Link, r: Step)
    requires Undisturbed(s) && LinkEnabled(s, RingStep(r))
    ensures Undisturbed(LinkDo(s, RingStep(r)))
  {
  }

  lemma UndisturbedSend(s: Link, step: LinkStep)
    requires Undisturbed(s) && LinkEnabled(s, step) && IsSenderStep(step)
    requires s.ring.bufferSize >= HEADER_SIZE
    ensures Undisturbed(LinkDo(s, step))
  {
  }

  lemma UndisturbedRecv(s: Link, step: LinkStep)
    requires Undisturbed(s) && LinkEnabled(s, step) && IsReceiverStep(step)
    ensures Undisturbed(LinkDo(s, step))
  {
  }

  lemma {:induction false} UndisturbedRun(run: seq<Link>, steps: seq<LinkStep>, i: nat)
    requires IsLinkRun(run, steps) && i < |run|
    ensures Undisturbed(run[i])
  {
    if i > 0 {
      UndisturbedRun(run, steps, i - 1);
      LinkRunKeeps(run, steps, i - 1);
      var before, step := run[i - 1], steps[i - 1];
      if step.RingStep? { UndisturbedRingStep(before, step.step); }
      else if IsSenderStep(step) { UndisturbedSend(before, step); }
      else { UndisturbedRecv(before, step); }
    }
  }

  /** With EXIT unset the delivered messages are a prefix of the messages vt_send was
      called with, and sender and receiver never block each other. */
  lemma UndisturbedLink(run: seq<Link>, steps: seq<LinkStep>, i: nat)
    requires IsLinkRun(run, steps) && i < |run| && !run[i].ring.exit
    ensures var s := run[i];
      && |s.outcomes| <= |s.calls|
      && forall j | 0 <= j < |s.outcomes| :: s.outcomes[j] == Expected(s.ring.bufferSize, s.calls[j])
    ensures !BothBlocked(run[i])
  {
    UndisturbedRun(run, steps, i);
    MessagesRoundTrip(run, steps, i);
    NeverBothBlocked(run, steps, i);
  }
}
