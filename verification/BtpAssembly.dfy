/** What the frames of a BTP session say: which messages a peer's frames spell, which frame is refused, and what the
    own frames carry (crates/mat-controller/src/btp.rs). */
module BtpAssembly {
  import opened Wrappers
  import opened BtpFraming
  import opened BtpSession

  // ---------------------------------------------------------------- messages in frames

  function Payloads(ps: seq<Packet>): bytes {
    if ps == [] then [] else Payloads(ps[..|ps| - 1]) + ps[|ps| - 1].payload
  }

  lemma PayloadsSnoc(ps: seq<Packet>, p: Packet)
    ensures Payloads(ps + [p]) == Payloads(ps) + p.payload
  {
    assert (ps + [p])[..|ps|] == ps;
  }

  /** A beginning segment that declares `n` bytes, and what follows it, within them. */
  ghost predicate Started(ps: seq<Packet>, n: nat) {
    && ps != [] && ps[0].beginning && ps[0].msgLen == Some(n) && |Payloads(ps)| <= n
    && forall k :: 0 < k < |ps| ==> !ps[k].beginning
  }

  /** The frames of a message up to here; more are to come. */
  ghost predicate Partial(ps: seq<Packet>, n: nat) {
    Started(ps, n) && forall k :: 0 <= k < |ps| ==> !ps[k].ending
  }

  /** All frames of the message `m`: the last one ends it, and it has the declared length. */
  ghost predicate Whole(ps: seq<Packet>, m: bytes) {
    && Started(ps, |m|) && Payloads(ps) == m && ps[|ps| - 1].ending
    && forall k :: 0 <= k < |ps| - 1 ==> !ps[k].ending
  }

  /** A frame without data between messages: an acknowledgement. */
  predicate Neutral(open: seq<Packet>, p: Packet) { open == [] && !p.beginning && p.payload == [] }

  /** The frame goes on with what is open, if anything is. */
  ghost predicate Continues(open: seq<Packet>, p: Packet) {
    Neutral(open, p) || Whole(open + [p], Payloads(open + [p])) || exists n :: Partial(open + [p], n)
  }

  /** The messages a sequence of frames spells and the frames of the message still open; `None` when they spell
      nothing. */
  ghost function Spell(ps: seq<Packet>): Option<(seq<bytes>, seq<Packet>)> {
    if ps == [] then Some(([], []))
    else
      match Spell(ps[..|ps| - 1])
      case None => None
      case Some(before) =>
        var open, p := before.1, ps[|ps| - 1];
        if !Continues(open, p) then None
        else if Neutral(open, p) then Some((before.0, []))
        else if p.ending then Some((before.0 + [Payloads(open + [p])], []))
        else Some((before.0, open + [p]))
  }

  /** The reassembler holds the frames of the message that is open. */
  ghost predicate Holds(r: Reasm, open: seq<Packet>) {
    if open == [] then r.expected.None?
    else r.expected.Some? && Partial(open, r.expected.value) && r.buf == Payloads(open)
  }

  /** A frame is taken exactly if it continues what is open, and completes a message exactly if it is the last frame
      of one; then the message is that one. */
  lemma PushMeaning(r: Reasm, open: seq<Packet>, p: Packet)
    requires Holds(r, open)
    ensures var (r1, x) := Push(r, p);
            && (x.Ok? <==> Continues(open, p))
            && (x == Err(BeginningMidMessage) <==> p.beginning && open != [])
            && (x == Err(ContinuationWithoutBeginning) <==> !p.beginning && open == [] && p.payload != [])
            && (x.Ok? ==>
                  if Neutral(open, p) then x.value.None? && Holds(r1, [])
                  else if p.ending then
                    x.value == Some(Payloads(open + [p])) && Whole(open + [p], x.value.value) && Holds(r1, [])
                  else x.value.None? && Holds(r1, open + [p]))
  {
    PayloadsSnoc(open, p);
    if Push(r, p).1.Ok? { PushTaken(r, open, p); }
    if !Neutral(open, p) && Continues(open, p) { Declared(r, open, p); }
    hide Payloads, Continues, Whole, Partial, Neutral;
  }

  /** What continues the open message is within its declared length. */
  lemma Declared(r: Reasm, open: seq<Packet>, p: Packet)
    requires Holds(r, open) && !Neutral(open, p) && Continues(open, p)
    ensures Push(r, p).1.Ok?
  {
    var qs := open + [p];
    PayloadsSnoc(open, p);
    assert open == [] ==> qs[0] == p && Payloads(open) == [];
    assert open != [] ==> qs[0] == open[0] && qs[|open|] == p;
    assert [] + p.payload == p.payload;
    hide Payloads, Continues;
    if Whole(qs, Payloads(qs)) {
      assert qs[|qs| - 1] == p;
    } else {
      ContinuesPartly(open, p);
      var n :| Partial(qs, n);
      assert qs[|qs| - 1] == p;
    }
  }

  lemma ContinuesPartly(open: seq<Packet>, p: Packet)
    requires !Neutral(open, p) && Continues(open, p) && !Whole(open + [p], Payloads(open + [p]))
    ensures exists n :: Partial(open + [p], n)
  {
    hide Neutral, Whole, Partial;
  }

  lemma PushTaken(r: Reasm, open: seq<Packet>, p: Packet)
    requires Holds(r, open) && Push(r, p).1.Ok?
    ensures var (r1, x) := Push(r, p);
            && Continues(open, p)
            && if Neutral(open, p) then x.value.None? && Holds(r1, [])
               else if p.ending then
                 x.value == Some(Payloads(open + [p])) && Whole(open + [p], x.value.value) && Holds(r1, [])
               else x.value.None? && Holds(r1, open + [p])
  {
    if !Neutral(open, p) {
      var qs := open + [p];
      PayloadsSnoc(open, p);
      assert forall k :: 0 <= k < |open| ==> qs[k] == open[k];
      assert qs[|open|] == p && [] + p.payload == p.payload;
      assert open == [] ==> Payloads(open) == [];
      hide Payloads, Continues;
      var n := if open == [] then p.msgLen.value else r.expected.value;
      assert Started(qs, n);
      assert if p.ending then Whole(qs, Payloads(qs)) else Partial(qs, n);
      ContinuesSo(open, p, n);
    }
  }

  lemma ContinuesSo(open: seq<Packet>, p: Packet, n: nat)
    requires Whole(open + [p], Payloads(open + [p])) || Partial(open + [p], n)
    ensures Continues(open, p)
  {
    hide Neutral, Whole, Partial;
  }

  /** The packets of the frames received in a run. */
  function Arrived(steps: seq<Step>): seq<Packet> {
    if steps == [] then []
    else
      var before, step := Arrived(steps[..|steps| - 1]), steps[|steps| - 1];
      if step.Receive? && Decode(step.frame).Ok? then before + [Decode(step.frame).value] else before
  }

  /** An open session has handed over exactly the messages that the frames it received spell, whatever the peer
      sends. */
  lemma {:induction false} RunsDeliver(base: uint8, params: Params, steps: seq<Step>)
    requires base <= 1 && Exec(FreshNode(base, params), steps).Some?
    requires Exec(FreshNode(base, params), steps).value.closed.None?
    ensures var n, spelt := Exec(FreshNode(base, params), steps).value, Spell(Arrived(steps));
            spelt.Some? && spelt.value.0 == n.delivered && Holds(n.s.reasm, spelt.value.1)
    decreases |steps|
  {
    if steps != [] {
      var before, step := steps[..|steps| - 1], steps[|steps| - 1];
      var n := Exec(FreshNode(base, params), before).value;
      RunsDeliver(base, params, before);
      var spelt := Spell(Arrived(before)).value;
      if step.Receive? {
        ReceiveDelivers(n, step.frame, spelt.1);
        var p := Decode(step.frame).value;
        assert (Arrived(before) + [p])[..|Arrived(before)|] == Arrived(before);
        hide Next, Continues, Holds, Decode;
      } else {
        OwnStepDelivers(n, step);
        hide Next, Continues, Holds, Decode;
      }
    }
  }

  lemma ReceiveDelivers(n: Node, frame: bytes, open: seq<Packet>)
    requires OutOk(n) && n.closed.None? && Holds(n.s.reasm, open) && Next(n, Receive(frame)).closed.None?
    ensures Decode(frame).Ok?
    ensures var m, p := Next(n, Receive(frame)), Decode(frame).value;
            && Continues(open, p)
            && m.delivered == n.delivered + (if !Neutral(open, p) && p.ending then [Payloads(open + [p])] else [])
            && Holds(m.s.reasm, if Neutral(open, p) || p.ending then [] else open + [p])
  {
    if Decode(frame).Ok? {
      PushMeaning(n.s.reasm, open, Decode(frame).value);
      hide Decode, Push, Holds, Continues, Whole;
      assert n.delivered + [] == n.delivered;
    }
  }

  lemma OwnStepDelivers(n: Node, step: Step)
    requires OutOk(n) && Enabled(n, step) && !step.Receive?
    ensures Next(n, step).delivered == n.delivered && Next(n, step).s.reasm == n.s.reasm
  {
    hide NextSegment, Wire, SegmentEnd;
  }

  // ---------------------------------------------------------------- what is refused

  /** A frame closes the session unless it decodes, acknowledges at most frames in flight, has the next number and
      continues the open message. What it acknowledges is no longer in flight. */
  lemma RefusedIff(n: Node, base: uint8, open: seq<Packet>, frame: bytes)
    requires base <= 1 && Accounted(n, base) && n.closed.None? && Holds(n.s.reasm, open)
    ensures var m := Next(n, Receive(frame));
            m.closed.None? <==>
              && Decode(frame).Ok?
              && var p := Decode(frame).value;
                 && (p.ack.Some? ==> exists count: nat :: AcksUpTo(n, base, p.ack.value, count))
                 && p.seqNo == LastSeqOf(1 - base, n.received + 1)
                 && Continues(open, p)
    ensures var m := Next(n, Receive(frame));
            m.closed.None? ==>
              && m.received == n.received + 1 && m.s.pendingAck && m.wrote == n.wrote
              && match Decode(frame).value.ack
                 case None => AckedFrames(m) == AckedFrames(n)
                 case Some(a) => AckedFrames(m) >= 0 && AcksUpTo(n, base, a, AckedFrames(m))
  {
    if Decode(frame).Ok? {
      var p := Decode(frame).value;
      PushMeaning(n.s.reasm, open, p);
      SeqAfter(1 - base, n.received);
      if p.ack.Some? { AckFits(n, base, p.ack.value); }
      hide Decode, Push, Holds, Continues, Whole, AcksUpTo, Accounted, LastSeqOf, WrapAdd8;
      assert n.s.lastRxSeq == LastSeqOf(1 - base, n.received) by { LastSeq(n, base); }
    }
  }

  lemma LastSeq(n: Node, base: uint8)
    requires base <= 1 && Accounted(n, base)
    ensures n.s.lastRxSeq == LastSeqOf(1 - base, n.received)
  {
  }

  lemma AckFits(n: Node, base: uint8, a: uint8)
    requires base <= 1 && Accounted(n, base)
    ensures TakeAck(n.s, Some(a)).Ok? <==> exists count: nat :: AcksUpTo(n, base, a, count)
    ensures var t := TakeAck(n.s, Some(a));
            t.Ok? ==> |n.wrote| - t.value.unacked >= 0 && AcksUpTo(n, base, a, |n.wrote| - t.value.unacked)
                      && t.value == n.s.(unacked := t.value.unacked, peerAcked := a)
  {
    AckAccounting(n, base, a, 0);
    var newly := WrapSub8(a, n.s.peerAcked);
    AckAccounting(n, base, a, AckedFrames(n) + newly);
    hide AcksUpTo, Accounted, WrapSub8;
  }

  // ---------------------------------------------------------------- what own frames carry

  /** The next segment, as the peer decodes it: the next number, the owed acknowledgement on the first segment alone,
      the declared length there too, and the next bytes of the message, as many as the segment holds. */
  lemma SegmentSays(n: Node, base: uint8)
    requires base <= 1 && Accounted(n, base) && Enabled(n, SendSegment)
    ensures var m, o := Next(n, SendSegment), n.out.value;
            && m.wrote == n.wrote + [m.wrote[|n.wrote|]] && Decode(m.wrote[|n.wrote|]).Ok?
            && var f, p := m.wrote[|n.wrote|], Decode(m.wrote[|n.wrote|]).value;
               && p.seqNo == LastSeqOf(base, |n.wrote| + 1)
               && p.ack == (if o.first && n.ackPoint < n.received then Some(LastSeqOf(1 - base, n.received)) else None)
               && p.beginning == o.first && p.msgLen == (if o.first then Some(|o.msg|) else None)
               && o.off + |p.payload| <= |o.msg| && p.payload == o.msg[o.off..o.off + |p.payload|]
               && (p.ending <==> o.off + |p.payload| == |o.msg|)
               && (if p.ending then |f| <= n.params.segmentSize else |f| == n.params.segmentSize)
               && m.out == (if p.ending then None else Some(Outgoing(o.msg, o.off + |p.payload|, false)))
               && m.s.pendingAck == (n.s.pendingAck && !o.first)
               && m.s.segsSinceAck == if p.ack.Some? then 0 else n.s.segsSinceAck
  {
    var p := NextSegment(n);
    DecodeWire(p);
    SegmentFits(n);
    SegmentIsFull(n);
    NextSeq(n, base);
    hide Decode, Wire, LastSeqOf, SegmentEnd;
  }

  lemma NextSeq(n: Node, base: uint8)
    requires base <= 1 && Accounted(n, base)
    ensures n.s.txSeq == LastSeqOf(base, |n.wrote| + 1)
  {
    Mod256Turn(base + |n.wrote|);
  }

  lemma Mod256Turn(x: nat)
    ensures x % 0x100 == (x + 0x100) % 0x100
  {
  }

  lemma SegmentIsFull(n: Node)
    requires OutOk(n) && Negotiated(n.params) && n.out.Some?
    ensures !NextSegment(n).ending ==> |Wire(NextSegment(n))| == n.params.segmentSize
    ensures n.out.value.off <= SegmentEnd(n) <= |n.out.value.msg|
  {
    var p := NextSegment(n);
    assert |Wire(p)| == 2 + (if p.ack.Some? then 1 else 0) + (if p.msgLen.Some? then 2 else 0) + |p.payload|;
  }

  /** A separate acknowledgement, as the peer decodes it: of the last frame received, without data; nothing is owed
      any more. */
  lemma AckSays(n: Node, base: uint8)
    requires base <= 1 && Accounted(n, base) && Enabled(n, SendAck)
    ensures var m := Next(n, SendAck);
            && m.wrote == n.wrote + [m.wrote[|n.wrote|]]
            && Decode(m.wrote[|n.wrote|])
               == Ok(Packet(false, false, Some(LastSeqOf(1 - base, n.received)), LastSeqOf(base, |n.wrote| + 1), None, []))
            && !m.s.pendingAck && m.s.segsSinceAck == 0 && m.out == n.out
  {
    DecodeWire(StandaloneAck(n.s.txSeq, n.s.lastRxSeq));
    NextSeq(n, base);
    hide Decode, Wire, LastSeqOf;
  }
}
