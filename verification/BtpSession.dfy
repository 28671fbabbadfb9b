/** One BTP endpoint: window accounting, acknowledgements and the session state
    (crates/mat-controller/src/btp.rs). */
module BtpSession {
  import opened Wrappers
  import opened BtpFraming

  datatype Params = Params(segmentSize: uint16, windowSize: uint8)

  /** What `decode_handshake_response` lets through. */
  predicate Negotiated(params: Params) { params.segmentSize >= 20 && params.windowSize >= 1 }

  datatype Session = Session(
    txSeq: uint8, peerAcked: uint8, unacked: uint8, lastRxSeq: uint8,
    pendingAck: bool, segsSinceAck: uint8, reasm: Reasm)

  /** A session whose own first frame is number `base`. The central starts at 0; the peripheral, whose
      handshake response has consumed 0, starts at 1 and expects 0 from the central. */
  function FreshSession(base: uint8): Session
    requires base <= 1
  {
    Session(base, WrapSub8(base, 1), 0, WrapSub8(1 - base, 1), false, 0, EMPTY_REASM)
  }

  // ---------------------------------------------------------------- transitions

  /** The ack check and the window accounting of one frame. */
  function TakeAck(s: Session, ack: Option<uint8>): Result<Session, BtpError> {
    match ack
    case None => Ok(s)
    case Some(a) =>
      var newly := WrapSub8(a, s.peerAcked);
      if newly > s.unacked then Err(AckForUnsentFrame)
      else Ok(s.(unacked := s.unacked - newly, peerAcked := a))
  }

  function ProcessIncoming(s: Session, p: Packet): (Session, Result<Option<bytes>, BtpError>) {
    match TakeAck(s, p.ack)
    case Err(e) => (s, Err(e))
    case Ok(s1) =>
      if p.seqNo != WrapAdd8(s1.lastRxSeq, 1) then (s1, Err(OutOfOrderSeq))
      else
        var segs := if p.payload != [] then SatAdd8(s1.segsSinceAck, 1) else s1.segsSinceAck;
        var (reasm, r) := Push(s1.reasm, p);
        (s1.(lastRxSeq := p.seqNo, pendingAck := true, segsSinceAck := segs, reasm := reasm), r)
  }

  /** The session after one frame went out, with or without the owed ack on board. */
  function Emitted(s: Session, withAck: bool): Session {
    var t := s.(txSeq := WrapAdd8(s.txSeq, 1), unacked := SatAdd8(s.unacked, 1));
    if withAck then t.(pendingAck := false, segsSinceAck := 0) else t
  }

  // ---------------------------------------------------------------- the endpoint as a step system

  /** A message being cut into segments: what is left starts at `off`. */
  datatype Outgoing = Outgoing(msg: bytes, off: nat, first: bool)

  /** An endpoint together with what it exchanged so far. `accepted` and `delivered` are the messages taken
      from and handed to the application, `wrote` the frames put on the link. `received` counts frames that
      passed all checks; `ackPoint` is the value of `received` at the last ack sent, and `acks[k]`
      the value of `ackPoint` once frame `k` was written. `acksSent` counts frames that carried an ack, and
      `dataSinceAck` the non-empty segments that came after the last of those. */
  datatype Node = Node(
    s: Session, params: Params, out: Option<Outgoing>,
    accepted: seq<bytes>, delivered: seq<bytes>, wrote: seq<bytes>,
    received: nat, ackPoint: nat, acks: seq<nat>, acksSent: nat, dataSinceAck: nat,
    closed: Option<BtpError>)

  function FreshNode(base: uint8, params: Params): (n: Node)
    requires base <= 1
    ensures OutOk(n) && n.params == params && n.closed.None?
  {
    Node(FreshSession(base), params, None, [], [], [], 0, 0, [], 0, 0, None)
  }

  datatype Step = Submit(msg: bytes) | SendSegment | SendAck | Receive(frame: bytes)

  /** When the program may take a step. `SendAck` covers the three places that flush an owed ack: the
      keepalive tick, the proactive ack, and the ack sent while waiting for the window. */
  predicate Enabled(n: Node, step: Step) {
    n.closed.None? &&
    match step
    case Submit(_) => n.out.None?
    case SendSegment => n.out.Some? && n.s.unacked < n.params.windowSize
    case SendAck => n.s.pendingAck && n.s.unacked < n.params.windowSize
    case Receive(_) => true
  }

  function Put(n: Node, frame: bytes, withAck: bool): Node {
    var point := if withAck then n.received else n.ackPoint;
    n.(s := Emitted(n.s, withAck), wrote := n.wrote + [frame], ackPoint := point, acks := n.acks + [point],
       acksSent := n.acksSent + (if withAck then 1 else 0),
       dataSinceAck := if withAck then 0 else n.dataSinceAck)
  }

  /** Where the next segment ends. */
  function SegmentEnd(n: Node): nat
    requires n.out.Some?
  {
    var o := n.out.value;
    var e := o.off + SegmentPayloadCapacity(n.params.segmentSize, o.first, n.s.pendingAck && o.first);
    if e <= |o.msg| then e else |o.msg|
  }

  /** The next segment of the message being sent. */
  function NextSegment(n: Node): Packet
    requires n.out.Some? && n.out.value.off <= |n.out.value.msg| <= MAX_MESSAGE
  {
    var o := n.out.value;
    var end := SegmentEnd(n);
    PacketAt(
      n.s.txSeq,
      if n.s.pendingAck && o.first then Some(n.s.lastRxSeq) else None,
      if o.first then First(end == |o.msg|) else if end == |o.msg| then Last else Middle,
      if o.first then Some(|o.msg|) else None,
      o.msg[o.off..end])
  }

  predicate OutOk(n: Node) {
    n.out.Some? ==> n.out.value.off <= |n.out.value.msg| <= MAX_MESSAGE
  }

  function Next(n: Node, step: Step): Node
    requires OutOk(n) && Enabled(n, step)
  {
    match step
    case Submit(msg) =>
      if |msg| > MAX_MESSAGE then n.(closed := Some(MessageTooLong))
      else n.(out := Some(Outgoing(msg, 0, true)), accepted := n.accepted + [msg])
    case SendSegment =>
      var o := n.out.value;
      var end := SegmentEnd(n);
      Put(n, Wire(NextSegment(n)), n.s.pendingAck && o.first)
        .(out := if end < |o.msg| then Some(Outgoing(o.msg, end, false)) else None)
    case SendAck =>
      Put(n, Wire(StandaloneAck(n.s.txSeq, n.s.lastRxSeq)), true)
    case Receive(frame) =>
      match Decode(frame)
      case Err(e) => n.(closed := Some(e))
      case Ok(p) =>
        var (s, r) := ProcessIncoming(n.s, p);
        match r
        case Err(e) => n.(s := s, closed := Some(e))
        case Ok(m) =>
          n.(s := s, received := n.received + 1,
             dataSinceAck := n.dataSinceAck + (if p.payload != [] then 1 else 0),
             delivered := if m.Some? then n.delivered + [m.value] else n.delivered)
  }

  /** A whole run: `None` when some step was not allowed. */
  function Exec(n: Node, steps: seq<Step>): Option<Node>
    requires OutOk(n)
    ensures Exec(n, steps).Some? ==> OutOk(Exec(n, steps).value)
    decreases |steps|
  {
    if steps == [] then Some(n)
    else
      match Exec(n, steps[..|steps| - 1])
      case None => None
      case Some(m) =>
        var step := steps[|steps| - 1];
        if Enabled(m, step) then NextKeepsOutOk(m, step); Some(Next(m, step)) else None
  }

  lemma NextKeepsOutOk(n: Node, step: Step)
    requires OutOk(n) && Enabled(n, step)
    ensures OutOk(Next(n, step))
  {
  }

  // ---------------------------------------------------------------- against an arbitrary peer

  /** Own frames the peer has acknowledged. */
  function AckedFrames(n: Node): int { |n.wrote| - n.s.unacked }

  /** Sequence number of the last of the first `count` frames of an endpoint that starts at `base`. */
  function LastSeqOf(base: uint8, count: nat): uint8
    requires base <= 1
  {
    (base + count + 0xFF) % 0x100
  }

  /** The accounting every open endpoint keeps, whatever the peer sends. */
  predicate Accounted(n: Node, base: uint8)
    requires base <= 1
  {
    && OutOk(n) && Negotiated(n.params)
    && n.s.unacked <= n.params.windowSize
    && 0 <= AckedFrames(n)
    && n.s.txSeq == (base + |n.wrote|) % 0x100
    && n.s.peerAcked == LastSeqOf(base, AckedFrames(n))
    && n.s.lastRxSeq == LastSeqOf(1 - base, n.received)
    && (n.s.pendingAck <==> n.ackPoint < n.received)
    && n.acksSent <= n.ackPoint <= n.received
    && |n.acks| == |n.wrote|
    && n.dataSinceAck <= n.received - n.ackPoint
    && n.s.segsSinceAck == (if n.dataSinceAck < 0xFF then n.dataSinceAck else 0xFF)
  }

  /** The three u8 counters always satisfy `tx_seq == peer_acked + 1 + unacked`. */
  lemma CountersAddUp(n: Node, base: uint8)
    requires base <= 1 && Accounted(n, base)
    ensures n.s.txSeq == (n.s.peerAcked + 1 + n.s.unacked) % 0x100
  {
    var x := base + AckedFrames(n) + 0xFF;
    assert n.s.peerAcked == x % 0x100 && n.s.txSeq == (base + |n.wrote|) % 0x100;
    hide Accounted;
    Mod256Add(x, 1 + n.s.unacked);
    assert x + (1 + n.s.unacked) == base + |n.wrote| + 0x100;
  }

  /** An ack number `a` names a frame count the peer may acknowledge: the last one acknowledged or any
      frame still in flight. */
  predicate AcksUpTo(n: Node, base: uint8, a: uint8, count: nat)
    requires base <= 1
  {
    AckedFrames(n) <= count <= |n.wrote| && a == LastSeqOf(base, count)
  }

  /** The u8 difference is the unbounded number of newly acknowledged frames, and an ack is refused exactly
      when no frame in flight has that number. */
  lemma AckAccounting(n: Node, base: uint8, a: uint8, count: nat)
    requires base <= 1 && Accounted(n, base)
    ensures AcksUpTo(n, base, a, count) <==>
            WrapSub8(a, n.s.peerAcked) <= n.s.unacked && count == AckedFrames(n) + WrapSub8(a, n.s.peerAcked)
    ensures TakeAck(n.s, Some(a)).Err? <==> forall c: nat :: !AcksUpTo(n, base, a, c)
  {
    AckDifference(n, base, a, count);
    var newly := WrapSub8(a, n.s.peerAcked);
    AckDifference(n, base, a, AckedFrames(n) + newly);
    forall c: nat | newly > n.s.unacked
      ensures !AcksUpTo(n, base, a, c)
    {
      AckDifference(n, base, a, c);
    }
  }

  lemma AckDifference(n: Node, base: uint8, a: uint8, count: nat)
    requires base <= 1 && Accounted(n, base)
    ensures AcksUpTo(n, base, a, count) <==>
            WrapSub8(a, n.s.peerAcked) <= n.s.unacked && count == AckedFrames(n) + WrapSub8(a, n.s.peerAcked)
  {
    var p := base + AckedFrames(n) + 0xFF;
    assert n.s.peerAcked == p % 0x100 && AckedFrames(n) + n.s.unacked == |n.wrote| by { hide WrapSub8; }
    hide Accounted;
    if AckedFrames(n) <= count <= |n.wrote| {
      var d := count - AckedFrames(n);
      Mod256Distance(p, d);
      assert LastSeqOf(base, count) == (p + d) % 0x100;
    }
    Mod256Back(p, a);
  }

  lemma FreshIsAccounted(base: uint8, params: Params)
    requires base <= 1 && Negotiated(params)
    ensures Accounted(FreshNode(base, params), base)
  {
  }

  lemma PutKeepsAccounts(n: Node, base: uint8, frame: bytes, withAck: bool)
    requires base <= 1 && Accounted(n, base) && n.s.unacked < n.params.windowSize
    requires withAck ==> n.s.pendingAck
    ensures Accounted(Put(n, frame, withAck), base)
    ensures Put(n, frame, withAck).s.unacked == n.s.unacked + 1
  {
    var m := Put(n, frame, withAck);
    assert |m.wrote| == |n.wrote| + 1 && m.s.unacked == n.s.unacked + 1;
    assert AckedFrames(m) == AckedFrames(n) && m.s.peerAcked == n.s.peerAcked;
    hide LastSeqOf;
    Mod256Succ(base + |n.wrote|);
    assert m.s.txSeq == (base + |m.wrote|) % 0x100;
  }

  lemma TakeAckKeepsAccounts(n: Node, base: uint8, ack: Option<uint8>)
    requires base <= 1 && Accounted(n, base) && TakeAck(n.s, ack).Ok?
    ensures Accounted(n.(s := TakeAck(n.s, ack).value), base)
  {
    if ack.Some? {
      AckDifference(n, base, ack.value, AckedFrames(n) + WrapSub8(ack.value, n.s.peerAcked));
    }
  }

  lemma SeqAfter(base: uint8, count: nat)
    requires base <= 1
    ensures LastSeqOf(base, count + 1) == WrapAdd8(LastSeqOf(base, count), 1)
  {
    Mod256Succ(base + count + 0xFF);
  }

  lemma ArrivalKeepsAccounts(n: Node, base: uint8, p: Packet, reasm: Reasm, delivered: seq<bytes>)
    requires base <= 1 && Accounted(n, base) && p.seqNo == WrapAdd8(n.s.lastRxSeq, 1)
    ensures var segs := if p.payload != [] then SatAdd8(n.s.segsSinceAck, 1) else n.s.segsSinceAck;
            Accounted(
              n.(s := n.s.(lastRxSeq := p.seqNo, pendingAck := true, segsSinceAck := segs, reasm := reasm),
                 received := n.received + 1, delivered := delivered,
                 dataSinceAck := n.dataSinceAck + (if p.payload != [] then 1 else 0)), base)
  {
    SeqAfter(1 - base, n.received);
    hide LastSeqOf, WrapAdd8;
  }

  lemma ReceiveKeepsAccounts(n: Node, base: uint8, frame: bytes)
    requires base <= 1 && Accounted(n, base) && n.closed.None?
    ensures Next(n, Receive(frame)).closed.Some? || Accounted(Next(n, Receive(frame)), base)
  {
    hide Accounted;
    if Decode(frame).Ok? {
      var p := Decode(frame).value;
      var t := TakeAck(n.s, p.ack);
      if t.Ok? {
        TakeAckKeepsAccounts(n, base, p.ack);
        var n1 := n.(s := t.value);
        if p.seqNo == WrapAdd8(n1.s.lastRxSeq, 1) {
          var (reasm, r) := Push(n1.s.reasm, p);
          hide Decode, Push;
          if r.Ok? {
            ArrivalKeepsAccounts(
              n1, base, p, reasm, if r.value.Some? then n.delivered + [r.value.value] else n.delivered);
          }
        }
      }
    }
  }

  /** A step of its own keeps the accounting: the window counter is never clamped, and an ack leaves only
      when one is owed. */
  lemma SendKeepsAccounts(n: Node, base: uint8, step: Step)
    requires base <= 1 && Accounted(n, base) && Enabled(n, step) && !step.Receive?
    ensures Accounted(Next(n, step), base)
    ensures Next(n, step).closed.None? || Next(n, step).closed == Some(MessageTooLong)
    ensures !step.Submit? ==> Next(n, step).s.unacked == n.s.unacked + 1
    ensures Next(n, step).acksSent > n.acksSent ==> n.ackPoint < n.received
  {
    match step
    case Submit(_) =>
    case SendSegment =>
      PutKeepsAccounts(n, base, Wire(NextSegment(n)), n.s.pendingAck && n.out.value.first);
      NextKeepsOutOk(n, step);
    case SendAck =>
      PutKeepsAccounts(n, base, Wire(StandaloneAck(n.s.txSeq, n.s.lastRxSeq)), true);
  }

  lemma StepKeepsParams(n: Node, step: Step)
    requires OutOk(n) && Enabled(n, step)
    ensures Next(n, step).params == n.params
  {
  }

  lemma StepKeepsAccounts(n: Node, base: uint8, step: Step)
    requires base <= 1 && Accounted(n, base) && Enabled(n, step)
    ensures Next(n, step).closed.Some? || Accounted(Next(n, step), base)
  {
    hide Accounted, Next;
    if step.Receive? {
      ReceiveKeepsAccounts(n, base, step.frame);
    } else {
      SendKeepsAccounts(n, base, step);
    }
  }

  lemma RunFacts(n: Node, base: uint8)
    requires base <= 1 && Accounted(n, base)
    ensures n.s.txSeq == (n.s.peerAcked + 1 + n.s.unacked) % 0x100
    ensures n.s.unacked <= n.params.windowSize && n.acksSent <= n.received
  {
    CountersAddUp(n, base);
  }

  /** Every run of an endpoint against an arbitrary peer, from the handshake on. */
  lemma {:induction false} RunsKeepAccounts(base: uint8, params: Params, steps: seq<Step>)
    requires base <= 1 && Negotiated(params)
    requires Exec(FreshNode(base, params), steps).Some?
    ensures var n := Exec(FreshNode(base, params), steps).value;
            n.closed.Some?
            || (n.params == params && Accounted(n, base) && n.s.txSeq == (n.s.peerAcked + 1 + n.s.unacked) % 0x100
                && n.s.unacked <= params.windowSize && n.acksSent <= n.received)
    decreases |steps|
  {
    hide Accounted, Next, FreshNode;
    if steps == [] {
      FreshIsAccounted(base, params);
      RunFacts(FreshNode(base, params), base);
    } else {
      var before := steps[..|steps| - 1];
      RunsKeepAccounts(base, params, before);
      var n, step := Exec(FreshNode(base, params), before).value, steps[|steps| - 1];
      StepKeepsAccounts(n, base, step);
      StepKeepsParams(n, step);
      if Next(n, step).closed.None? {
        RunFacts(Next(n, step), base);
      }
    }
  }

  // ---------------------------------------------------------------- the clamp that can be reached

  /** A one-byte message in one segment, as the `k`-th frame of a peer that starts at `base`. */
  function FloodFrame(base: uint8, k: nat): bytes
    requires base <= 1
  {
    Wire(Packet(true, true, None, (base + k) % 0x100, Some(1), [0]))
  }

  function Flood(base: uint8, k: nat): seq<Step>
    requires base <= 1
  {
    seq(k, i requires 0 <= i => Receive(FloodFrame(base, i)))
  }

  /** What `k` one-byte messages leave behind. */
  predicate Flooded(n: Node, base: uint8, k: nat)
    requires base <= 1
  {
    && n.closed.None? && n.dataSinceAck == k && n.received == k
    && n.s.reasm == EMPTY_REASM && n.s.lastRxSeq == LastSeqOf(base, k)
    && n.s.segsSinceAck == (if k < 0xFF then k else 0xFF)
  }

  lemma FloodStep(n: Node, base: uint8, k: nat)
    requires base <= 1 && OutOk(n) && Flooded(n, base, k)
    ensures Flooded(Next(n, Receive(FloodFrame(base, k))), base, k + 1)
  {
    var p := Packet(true, true, None, (base + k) % 0x100, Some(1), [0]);
    DecodeWire(p);
    SeqAfter(base, k);
    assert p.seqNo == LastSeqOf(base, k + 1);
    OneBytePush(p);
    hide Decode, Wire, LastSeqOf, Push;
  }

  lemma OneBytePush(p: Packet)
    requires p.beginning && p.ending && p.msgLen == Some(1) && p.payload == [0]
    ensures Push(EMPTY_REASM, p) == (EMPTY_REASM, Ok(Some([0])))
  {
    var one: bytes := [0];
    assert [] + one == one;
  }

  /** `segs_since_ack` does saturate when a peer ignores our silence: after `k` one-byte messages the true
      count is `k` while the counter stops at 255. */
  lemma {:induction false} FloodClampsSegments(base: uint8, params: Params, k: nat)
    requires base <= 1 && Negotiated(params)
    ensures var r := Exec(FreshNode(1 - base, params), Flood(base, k));
            r.Some? && Flooded(r.value, base, k)
  {
    if k > 0 {
      FloodClampsSegments(base, params, k - 1);
      assert Flood(base, k)[..k - 1] == Flood(base, k - 1);
      FloodStep(Exec(FreshNode(1 - base, params), Flood(base, k - 1)).value, base, k - 1);
    }
  }

  /** The segment counter is the number of segments that wait for an ack. */
  predicate ExactSegments(n: Node) { n.s.segsSinceAck == n.dataSinceAck }

  /** A frame breaks an exact segment counter if and only if the counter stands at 255 and the frame carries data; a
      counter that is not exact any more stays so until an ack leaves, which makes it exact again. */
  lemma SegmentClampCondition(n: Node, base: uint8, step: Step)
    requires base <= 1 && Accounted(n, base) && Enabled(n, step) && Next(n, step).closed.None?
    ensures step.Receive? && ExactSegments(n) ==>
              (ExactSegments(Next(n, step)) <==> n.s.segsSinceAck != 0xFF || Decode(step.frame).value.payload == [])
    ensures step.Receive? && !ExactSegments(n) ==> n.s.segsSinceAck == 0xFF && !ExactSegments(Next(n, step))
    ensures !step.Receive? ==>
              (ExactSegments(Next(n, step)) <==> ExactSegments(n) || Next(n, step).acksSent > n.acksSent)
  {
    hide SegmentPayloadCapacity, NextSegment, Wire, Decode, Push;
    match step
    case Receive(frame) => ReceiveCounts(n, base, frame);
    case _ =>
  }

  lemma ReceiveCounts(n: Node, base: uint8, frame: bytes)
    requires base <= 1 && Accounted(n, base) && n.closed.None? && Next(n, Receive(frame)).closed.None?
    ensures Decode(frame).Ok?
    ensures var m, more := Next(n, Receive(frame)), if Decode(frame).value.payload != [] then 1 else 0;
            && m.dataSinceAck == n.dataSinceAck + more
            && m.s.segsSinceAck == if n.s.segsSinceAck + more > 0xFF then 0xFF else n.s.segsSinceAck + more
  {
    hide Decode, Push;
  }

  // ---------------------------------------------------------------- segment sizes

  /** Every segment fits the negotiated size, and a segment that does not end its message carries data. */
  lemma SegmentFits(n: Node)
    requires OutOk(n) && Negotiated(n.params) && n.out.Some?
    ensures |Wire(NextSegment(n))| <= n.params.segmentSize
    ensures !NextSegment(n).ending ==> |NextSegment(n).payload| >= 15
    ensures NextSegment(n).ending <==> SegmentEnd(n) == |n.out.value.msg|
  {
    var p := NextSegment(n);
    assert |Wire(p)| == 2 + (if p.ack.Some? then 1 else 0) + (if p.msgLen.Some? then 2 else 0) + |p.payload|;
  }

  predicate FramesFit(n: Node) {
    forall k :: 0 <= k < |n.wrote| ==> |n.wrote[k]| <= n.params.segmentSize
  }

  lemma {:induction false} RunsFit(base: uint8, params: Params, steps: seq<Step>)
    requires base <= 1 && Negotiated(params)
    requires Exec(FreshNode(base, params), steps).Some?
    ensures var n := Exec(FreshNode(base, params), steps).value;
            n.params == params && FramesFit(n)
    decreases |steps|
  {
    if steps != [] {
      var before := steps[..|steps| - 1];
      RunsFit(base, params, before);
      var n, step := Exec(FreshNode(base, params), before).value, steps[|steps| - 1];
      if step.SendSegment? {
        SegmentFits(n);
      }
    }
  }
}
