/** Two BTP endpoints over a pair of FIFO links: what one side writes, the other reads in order
    (crates/mat-controller/src/btp.rs). */
module BtpLink {
  import opened Wrappers
  import opened BtpFraming
  import opened BtpSession

  // ---------------------------------------------------------------- what a stream of frames says

  /** The reassembler's state and output after a stream of frames. */
  datatype Inbox = Inbox(reasm: Reasm, delivered: seq<bytes>)

  /** One frame pushed into the reassembler; `None` when it is refused. */
  function Feed(i: Inbox, frame: bytes): Option<Inbox> {
    match Decode(frame)
    case Err(_) => None
    case Ok(p) =>
      var (reasm, r) := Push(i.reasm, p);
      match r
      case Err(_) => None
      case Ok(m) => Some(Inbox(reasm, if m.Some? then i.delivered + [m.value] else i.delivered))
  }

  function Replay(frames: seq<bytes>): Option<Inbox> {
    if frames == [] then Some(Inbox(EMPTY_REASM, []))
    else
      match Replay(frames[..|frames| - 1])
      case None => None
      case Some(i) => Feed(i, frames[|frames| - 1])
  }

  lemma ReplaySnoc(frames: seq<bytes>, frame: bytes)
    ensures Replay(frames + [frame]) ==
            match Replay(frames) case None => None case Some(i) => Feed(i, frame)
  {
    assert (frames + [frame])[..|frames|] == frames;
  }

  /** A readable stream stays readable when cut short, and then delivers a prefix. */
  lemma {:induction false} ReplayPrefix(frames: seq<bytes>, n: nat)
    requires n <= |frames| && Replay(frames).Some?
    ensures Replay(frames[..n]).Some?
    ensures Replay(frames[..n]).value.delivered <= Replay(frames).value.delivered
    decreases |frames|
  {
    if n == |frames| {
      assert frames[..n] == frames;
    } else {
      var front := frames[..|frames| - 1];
      ReplayPrefix(front, n);
      assert front[..n] == frames[..n];
    }
  }

  // ---------------------------------------------------------------- the sender's side of a stream

  /** The frames written so far spell exactly the messages accepted, except for the one still being cut,
      of which they hold the first `off` bytes. */
  predicate Spells(x: Node, i: Inbox) {
    match x.out
    case None => i.reasm.expected.None? && i.delivered == x.accepted
    case Some(o) =>
      && x.accepted == i.delivered + [o.msg]
      && |o.msg| <= MAX_MESSAGE
      && if o.first then i.reasm.expected.None? && o.off == 0
         else o.off < |o.msg| && i.reasm == Reasm(o.msg[..o.off], Some(|o.msg|))
  }

  predicate Spelled(x: Node) {
    OutOk(x) && Replay(x.wrote).Some? && Spells(x, Replay(x.wrote).value)
  }

  /** Frame `k` carries sequence number `k` and, if it acks, acks what the endpoint had received. */
  predicate FrameTells(x: Node, base: uint8, k: nat)
    requires base <= 1 && k < |x.wrote| == |x.acks|
  {
    && Decode(x.wrote[k]).Ok?
    && Decode(x.wrote[k]).value.seqNo == (base + k) % 0x100
    && (Decode(x.wrote[k]).value.ack.Some? ==>
          Decode(x.wrote[k]).value.ack.value == LastSeqOf(1 - base, x.acks[k]))
  }

  predicate History(x: Node, base: uint8)
    requires base <= 1
  {
    && |x.acks| == |x.wrote|
    && (forall k :: 0 <= k < |x.wrote| ==> FrameTells(x, base, k))
    && (forall k :: 0 <= k < |x.acks| ==> x.acks[k] <= x.ackPoint)
    && (forall j, k :: 0 <= j <= k < |x.acks| ==> x.acks[j] <= x.acks[k])
  }

  lemma PutKeepsHistory(x: Node, base: uint8, p: Packet, withAck: bool)
    requires base <= 1 && Accounted(x, base) && History(x, base) && Coherent(p)
    requires p.seqNo == x.s.txSeq
    requires p.ack == if withAck then Some(x.s.lastRxSeq) else None
    ensures History(Put(x, Wire(p), withAck), base)
  {
    DecodeWire(p);
    var m := Put(x, Wire(p), withAck);
    forall k | 0 <= k < |m.wrote|
      ensures FrameTells(m, base, k)
    {
      if k < |x.wrote| {
        assert FrameTells(x, base, k);
      }
    }
  }

  lemma SegmentIsCoherent(x: Node)
    requires x.out.Some? && OutOk(x)
    ensures Coherent(NextSegment(x))
  {
  }

  lemma FeedSegment(x: Node, i: Inbox)
    requires Negotiated(x.params) && x.out.Some? && OutOk(x) && Spells(x, i)
    requires Enabled(x, SendSegment)
    ensures var j := Feed(i, Wire(NextSegment(x)));
            j.Some? && Spells(Next(x, SendSegment), j.value)
  {
    var o := x.out.value;
    var p := NextSegment(x);
    SegmentIsCoherent(x);
    DecodeWire(p);
    var end := SegmentEnd(x);
    assert o.first || o.off < end || end == |o.msg|;
    var buf := if o.first then [] else i.reasm.buf;
    assert buf + p.payload == o.msg[..end];
    if end == |o.msg| {
      assert o.msg[..end] == o.msg;
    }
  }

  lemma FeedAck(x: Node, i: Inbox)
    requires OutOk(x) && Spells(x, i)
    ensures Feed(i, Wire(StandaloneAck(x.s.txSeq, x.s.lastRxSeq))) == Some(i)
  {
    var p := StandaloneAck(x.s.txSeq, x.s.lastRxSeq);
    DecodeWire(p);
    assert i.reasm.buf + p.payload == i.reasm.buf;
  }

  /** Sending keeps the stream spelling the accepted messages. */
  lemma StepKeepsSpelling(x: Node, step: Step)
    requires Negotiated(x.params) && Spelled(x) && Enabled(x, step) && !step.Receive?
    ensures Spelled(Next(x, step))
  {
    var i := Replay(x.wrote).value;
    NextKeepsOutOk(x, step);
    match step
    case Submit(_) =>
    case SendSegment =>
      FeedSegment(x, i);
      ReplaySnoc(x.wrote, Wire(NextSegment(x)));
    case SendAck =>
      FeedAck(x, i);
      ReplaySnoc(x.wrote, Wire(StandaloneAck(x.s.txSeq, x.s.lastRxSeq)));
  }

  lemma ReceiveKeepsSpelling(x: Node, frame: bytes)
    requires Spelled(x) && Enabled(x, Receive(frame))
    ensures Spelled(Next(x, Receive(frame))) && Next(x, Receive(frame)).params == x.params
  {
  }

  /** Whatever the peer answers, the frames an endpoint has written reassemble to exactly the messages it
      accepted, each one completed by its last segment and not before. */
  lemma {:induction false} RunsSpell(base: uint8, params: Params, steps: seq<Step>)
    requires base <= 1 && Negotiated(params)
    requires Exec(FreshNode(base, params), steps).Some?
    ensures var n := Exec(FreshNode(base, params), steps).value;
            n.params == params && Spelled(n)
            && Replay(n.wrote).value.delivered
               == if n.out.None? then n.accepted else n.accepted[..|n.accepted| - 1]
    decreases |steps|
  {
    if steps != [] {
      var before := steps[..|steps| - 1];
      RunsSpell(base, params, before);
      var n, step := Exec(FreshNode(base, params), before).value, steps[|steps| - 1];
      if step.Receive? {
        ReceiveKeepsSpelling(n, step.frame);
      } else {
        StepKeepsSpelling(n, step);
      }
    }
  }

  lemma SameHistory(x: Node, m: Node, base: uint8)
    requires base <= 1 && History(x, base)
    requires m.wrote == x.wrote && m.acks == x.acks && m.ackPoint == x.ackPoint
    ensures History(m, base)
  {
    forall k | 0 <= k < |m.wrote|
      ensures FrameTells(m, base, k)
    {
      assert FrameTells(x, base, k);
    }
  }

  lemma StepKeepsHistory(x: Node, base: uint8, step: Step)
    requires base <= 1 && Accounted(x, base) && History(x, base) && Enabled(x, step)
    ensures History(Next(x, step), base)
  {
    hide Decode, Wire, LastSeqOf;
    match step
    case SendSegment =>
      SegmentIsCoherent(x);
      var withAck := x.s.pendingAck && x.out.value.first;
      PutKeepsHistory(x, base, NextSegment(x), withAck);
      SameHistory(Put(x, Wire(NextSegment(x)), withAck), Next(x, step), base);
    case SendAck =>
      PutKeepsHistory(x, base, StandaloneAck(x.s.txSeq, x.s.lastRxSeq), true);
    case _ =>
      SameHistory(x, Next(x, step), base);
  }

  // ---------------------------------------------------------------- both ends of a stream

  /** `y` has read a prefix of what `x` wrote, holds exactly what that prefix says, and the acks `x` still
      has in flight never fall behind what `y` already learned. */
  predicate Reads(y: Node, x: Node) {
    && y.received <= |x.wrote| == |x.acks|
    && Replay(x.wrote[..y.received]) == Some(Inbox(y.s.reasm, y.delivered))
    && AckedFrames(y) <= x.ackPoint <= x.received <= |y.wrote|
    && forall k :: y.received <= k < |x.acks| ==> AckedFrames(y) <= x.acks[k]
  }

  predicate Alive(x: Node) { x.closed.None? || x.closed == Some(MessageTooLong) }

  datatype Link = Link(central: Node, peripheral: Node)

  predicate EndOk(x: Node, base: uint8)
    requires base <= 1
  {
    Accounted(x, base) && Spelled(x) && History(x, base) && Alive(x)
  }

  predicate LinkOk(l: Link) {
    && EndOk(l.central, 0) && EndOk(l.peripheral, 1)
    && Reads(l.central, l.peripheral) && Reads(l.peripheral, l.central)
  }

  /** A step other than receiving, seen from the peer that reads the stream. */
  lemma SendKeepsReader(x: Node, y: Node, base: uint8, step: Step)
    requires base <= 1 && EndOk(x, base) && Enabled(x, step) && !step.Receive?
    requires Reads(y, x) && Reads(x, y)
    ensures Reads(y, Next(x, step)) && Reads(Next(x, step), y)
  {
    var m := Next(x, step);
    assert m.wrote[..y.received] == x.wrote[..y.received];
    if step.SendSegment? || step.SendAck? {
      assert AckedFrames(m) == AckedFrames(x);
    }
  }

  lemma HonestAckAccepted(x: Node, y: Node, base: uint8)
    requires base <= 1 && EndOk(x, base) && EndOk(y, 1 - base) && Reads(y, x)
    requires y.received < |x.wrote|
    ensures FrameTells(x, base, y.received)
    ensures var t := TakeAck(y.s, Decode(x.wrote[y.received]).value.ack);
            t.Ok? && (t.value == y.s || |y.wrote| - t.value.unacked == x.acks[y.received])
            && t.value.reasm == y.s.reasm && t.value.lastRxSeq == y.s.lastRxSeq
  {
    var k := y.received;
    assert FrameTells(x, base, k);
    var ack := Decode(x.wrote[k]).value.ack;
    if ack.Some? {
      assert x.acks[k] <= |y.wrote|;
      AckDifference(y, 1 - base, ack.value, x.acks[k]);
      assert AcksUpTo(y, 1 - base, ack.value, x.acks[k]);
    }
  }

  lemma HonestFrameFeeds(x: Node, y: Node)
    requires Spelled(x) && Reads(y, x) && y.received < |x.wrote|
    ensures Feed(Inbox(y.s.reasm, y.delivered), x.wrote[y.received]).Some?
    ensures Replay(x.wrote[..y.received + 1]) == Feed(Inbox(y.s.reasm, y.delivered), x.wrote[y.received])
  {
    var k := y.received;
    ReplayPrefix(x.wrote, k + 1);
    assert x.wrote[..k + 1] == x.wrote[..k] + [x.wrote[k]];
    ReplaySnoc(x.wrote[..k], x.wrote[k]);
  }

  lemma HonestSeqAccepted(x: Node, y: Node, base: uint8)
    requires base <= 1 && History(x, base) && y.received < |x.wrote|
    requires y.s.lastRxSeq == LastSeqOf(base, y.received)
    ensures FrameTells(x, base, y.received)
    ensures Decode(x.wrote[y.received]).value.seqNo == WrapAdd8(y.s.lastRxSeq, 1)
  {
    assert FrameTells(x, base, y.received);
    Mod256Succ(base + y.received + 0xFF);
  }

  /** An honest frame passes every check of the endpoint it is addressed to. */
  lemma HonestFrameAccepted(x: Node, y: Node, base: uint8)
    requires base <= 1 && EndOk(x, base) && EndOk(y, 1 - base) && Reads(y, x)
    requires y.received < |x.wrote|
    ensures Decode(x.wrote[y.received]).Ok?
    ensures ProcessIncoming(y.s, Decode(x.wrote[y.received]).value).1.Ok?
  {
    HonestAckAccepted(x, y, base);
    HonestFrameFeeds(x, y);
    HonestSeqAccepted(x, y, base);
    FedIsAccepted(y, Decode(x.wrote[y.received]).value);
  }

  lemma FedIsAccepted(y: Node, p: Packet)
    requires TakeAck(y.s, p.ack).Ok? && p.seqNo == WrapAdd8(y.s.lastRxSeq, 1)
    requires Push(y.s.reasm, p).1.Ok?
    ensures ProcessIncoming(y.s, p).1.Ok?
  {
  }

  lemma ReceiveKeepsLink(x: Node, y: Node, base: uint8)
    requires base <= 1 && EndOk(x, base) && EndOk(y, 1 - base) && Reads(y, x) && Reads(x, y)
    requires y.closed.None? && y.received < |x.wrote|
    ensures var m := Next(y, Receive(x.wrote[y.received]));
            m.closed.None? && Reads(m, x) && Reads(x, m) && Spelled(m)
  {
    var k := y.received;
    HonestFrameAccepted(x, y, base);
    HonestAckAccepted(x, y, base);
    HonestFrameFeeds(x, y);
    var m := Next(y, Receive(x.wrote[k]));
    assert m.received == k + 1 && m.wrote == y.wrote && m.acks == y.acks && m.ackPoint == y.ackPoint;
    assert m.out == y.out && m.accepted == y.accepted;
    assert AckedFrames(m) == AckedFrames(y) || AckedFrames(m) == x.acks[k];
  }

  // ---------------------------------------------------------------- runs of the link

  datatype LinkStep = Central(step: Step) | Peripheral(step: Step)

  /** A side may take any step of its own; the frame it receives is the next one the other side wrote. */
  predicate MayStep(me: Node, other: Node, step: Step) {
    Enabled(me, step) && (step.Receive? ==> me.received < |other.wrote| && step.frame == other.wrote[me.received])
  }

  predicate LinkEnabled(l: Link, step: LinkStep) {
    match step
    case Central(s) => MayStep(l.central, l.peripheral, s)
    case Peripheral(s) => MayStep(l.peripheral, l.central, s)
  }

  function LinkNext(l: Link, step: LinkStep): Link
    requires OutOk(l.central) && OutOk(l.peripheral) && LinkEnabled(l, step)
  {
    match step
    case Central(s) => l.(central := Next(l.central, s))
    case Peripheral(s) => l.(peripheral := Next(l.peripheral, s))
  }

  function LinkExec(l: Link, steps: seq<LinkStep>): (r: Option<Link>)
    requires OutOk(l.central) && OutOk(l.peripheral)
    ensures r.Some? ==> OutOk(r.value.central) && OutOk(r.value.peripheral)
    decreases |steps|
  {
    if steps == [] then Some(l)
    else
      match LinkExec(l, steps[..|steps| - 1])
      case None => None
      case Some(m) =>
        var last := steps[|steps| - 1];
        if LinkEnabled(m, last) then NextKeepsOutOk(if last.Central? then m.central else m.peripheral, last.step);
                                     Some(LinkNext(m, last))
        else None
  }

  lemma SideStepKeepsLink(me: Node, other: Node, base: uint8, step: Step)
    requires base <= 1 && EndOk(me, base) && EndOk(other, 1 - base) && Reads(me, other) && Reads(other, me)
    requires MayStep(me, other, step)
    ensures EndOk(Next(me, step), base) && Reads(Next(me, step), other) && Reads(other, Next(me, step))
  {
    assert Negotiated(me.params);
    hide Accounted, Spelled, History, Reads, Next;
    StepKeepsHistory(me, base, step);
    if step.Receive? {
      ReceiveKeepsLink(other, me, 1 - base);
      ReceiveKeepsAccounts(me, base, step.frame);
    } else {
      SendKeepsAccounts(me, base, step);
      StepKeepsSpelling(me, step);
      SendKeepsReader(me, other, base, step);
    }
  }

  function FreshLink(central: Params, peripheral: Params): Link {
    Link(FreshNode(0, central), FreshNode(1, peripheral))
  }

  lemma {:induction false} RunsKeepLink(central: Params, peripheral: Params, steps: seq<LinkStep>)
    requires Negotiated(central) && Negotiated(peripheral)
    requires LinkExec(FreshLink(central, peripheral), steps).Some?
    ensures LinkOk(LinkExec(FreshLink(central, peripheral), steps).value)
    decreases |steps|
  {
    if steps != [] {
      var before := steps[..|steps| - 1];
      RunsKeepLink(central, peripheral, before);
      var l := LinkExec(FreshLink(central, peripheral), before).value;
      match steps[|steps| - 1]
      case Central(s) => SideStepKeepsLink(l.central, l.peripheral, 0, s);
      case Peripheral(s) => SideStepKeepsLink(l.peripheral, l.central, 1, s);
    }
  }

  /** In every interleaving of segments, receptions and acks, neither side refuses a frame of the other, and
      each side has delivered a prefix of the messages the other accepted. */
  lemma LinkIsSafe(central: Params, peripheral: Params, steps: seq<LinkStep>)
    requires Negotiated(central) && Negotiated(peripheral)
    requires LinkExec(FreshLink(central, peripheral), steps).Some?
    ensures var l := LinkExec(FreshLink(central, peripheral), steps).value;
            && Alive(l.central) && Alive(l.peripheral)
            && l.central.delivered <= l.peripheral.accepted
            && l.peripheral.delivered <= l.central.accepted
  {
    RunsKeepLink(central, peripheral, steps);
    var l := LinkExec(FreshLink(central, peripheral), steps).value;
    DeliveredPrefix(l.central, l.peripheral);
    DeliveredPrefix(l.peripheral, l.central);
  }

  lemma DeliveredPrefix(x: Node, y: Node)
    requires Spelled(x) && Reads(y, x)
    ensures y.delivered <= x.accepted
    ensures y.received == |x.wrote| && x.out.None? ==> y.delivered == x.accepted
  {
    ReplayPrefix(x.wrote, y.received);
    if y.received == |x.wrote| {
      assert x.wrote[..y.received] == x.wrote;
    }
  }

  /** Once a side has cut all its messages and every frame has been read, all of them have been delivered. */
  lemma DrainedLinkDeliversAll(central: Params, peripheral: Params, steps: seq<LinkStep>)
    requires Negotiated(central) && Negotiated(peripheral)
    requires LinkExec(FreshLink(central, peripheral), steps).Some?
    ensures var l := LinkExec(FreshLink(central, peripheral), steps).value;
            && (l.central.out.None? && l.peripheral.received == |l.central.wrote| ==>
                  l.peripheral.delivered == l.central.accepted)
            && (l.peripheral.out.None? && l.central.received == |l.peripheral.wrote| ==>
                  l.central.delivered == l.peripheral.accepted)
  {
    RunsKeepLink(central, peripheral, steps);
    var l := LinkExec(FreshLink(central, peripheral), steps).value;
    DeliveredPrefix(l.central, l.peripheral);
    DeliveredPrefix(l.peripheral, l.central);
  }

  /** With an honest peer neither saturating counter of an endpoint is ever clamped: both equal the counts
      they stand for, even with a window of 255. */
  lemma HonestPeerNeverClamps(central: Params, peripheral: Params, steps: seq<LinkStep>)
    requires Negotiated(central) && Negotiated(peripheral)
    requires LinkExec(FreshLink(central, peripheral), steps).Some?
    ensures var l := LinkExec(FreshLink(central, peripheral), steps).value;
            && l.central.s.segsSinceAck == l.central.dataSinceAck
            && l.peripheral.s.segsSinceAck == l.peripheral.dataSinceAck
  {
    RunsKeepLink(central, peripheral, steps);
    var l := LinkExec(FreshLink(central, peripheral), steps).value;
    assert l.central.received - l.central.ackPoint <= l.peripheral.s.unacked;
    assert l.peripheral.received - l.peripheral.ackPoint <= l.central.s.unacked;
  }
}
