/** The session actor: the code that drives one endpoint, proved to take only steps of the endpoint's step
    system (crates/mat-controller/src/btp.rs). */
module BtpActor {
  import opened Wrappers
  import opened BtpFraming
  import opened BtpSession
  import opened BtpTurns

  /** The two directions of the GATT characteristic pair. `indications` is what still arrives; a write may
      fail at any time, which ends the session. */
  class GattLink {
    var indications: seq<bytes>
    var writes: seq<bytes>

    constructor (incoming: seq<bytes>)
      ensures indications == incoming && writes == []
    {
      indications, writes := incoming, [];
    }

    method Write(frame: bytes) returns (ok: bool)
      modifies `writes
      ensures writes == if ok then old(writes) + [frame] else old(writes)
    {
      ok := *;
      if ok { writes := writes + [frame]; }
    }

    method Recv() returns (frame: Option<bytes>)
      modifies `indications
      ensures frame.None? <==> old(indications) == []
      ensures frame.None? ==> indications == []
      ensures frame.Some? ==> old(indications) == [frame.value] + indications
    {
      if indications == [] { return None; }
      frame := Some(indications[0]);
      indications := indications[1..];
    }
  }

  /** Messages handed to the application; it may have gone away. */
  class AppInbox {
    var delivered: seq<bytes>

    constructor ()
      ensures delivered == []
    {
      delivered := [];
    }

    method Send(msg: bytes) returns (ok: bool)
      modifies this
      ensures delivered == if ok then old(delivered) + [msg] else old(delivered)
    {
      ok := *;
      if ok { delivered := delivered + [msg]; }
    }
  }

  class SessionState {
    var txSeq: uint8
    var peerAcked: uint8
    var unacked: uint8
    var lastRxSeq: uint8
    var pendingAck: bool
    var segsSinceAck: uint8
    const reasm: Reassembler

    function View(): Session
      reads this, reasm
    {
      Session(txSeq, peerAcked, unacked, lastRxSeq, pendingAck, segsSinceAck, reasm.View())
    }

    constructor ()
      ensures View() == FreshSession(0) && fresh(reasm)
    {
      txSeq, peerAcked, unacked, lastRxSeq := 0, WrapSub8(0, 1), 0, 0;
      pendingAck, segsSinceAck := false, 0;
      reasm := new Reassembler();
    }

    method ProcessPacket(pkt: Packet) returns (r: Result<Option<bytes>, BtpError>)
      modifies this, reasm
      ensures (View(), r) == ProcessIncoming(old(View()), pkt)
    {
      if pkt.ack.Some? {
        var a := pkt.ack.value;
        var newly := WrapSub8(a, peerAcked);
        if newly > unacked { return Err(AckForUnsentFrame); }
        unacked := unacked - newly;
        peerAcked := a;
      }
      if pkt.seqNo != WrapAdd8(lastRxSeq, 1) { return Err(OutOfOrderSeq); }
      lastRxSeq := pkt.seqNo;
      pendingAck := true;
      if pkt.payload != [] { segsSinceAck := SatAdd8(segsSinceAck, 1); }
      r := reasm.PushPacket(pkt);
    }
  }

  /** The objects of the actor hold exactly the state of `n`. */
  ghost predicate Shows(n: Node, params: Params, link: GattLink, st: SessionState, app: AppInbox)
    reads link, st, st.reasm, app
  {
    n.params == params && n.s == st.View() && n.wrote == link.writes && n.delivered == app.delivered
  }

  lemma ExecSnoc(n: Node, steps: seq<Step>, step: Step)
    requires OutOk(n) && Exec(n, steps).Some? && Enabled(Exec(n, steps).value, step)
    ensures Exec(n, steps + [step]) == Some(Next(Exec(n, steps).value, step))
  {
    assert (steps + [step])[..|steps|] == steps;
  }

  /** The frames a run took from the link. */
  function Heard(steps: seq<Step>): seq<bytes> {
    if steps == [] then []
    else
      var last := steps[|steps| - 1];
      Heard(steps[..|steps| - 1]) + if last.Receive? then [last.frame] else []
  }

  lemma HeardSnoc(steps: seq<Step>, step: Step)
    ensures Heard(steps + [step]) == Heard(steps) + if step.Receive? then [step.frame] else []
  {
    assert (steps + [step])[..|steps|] == steps;
  }

  method SendStandalone(link: GattLink, st: SessionState, app: AppInbox, params: Params, ghost n: Node)
    returns (ok: bool)
    requires OutOk(n) && Shows(n, params, link, st, app) && Enabled(n, SendAck)
    modifies link`writes, st
    ensures ok ==> Shows(Next(n, SendAck), params, link, st, app)
    ensures !ok ==> link.writes == old(link.writes)
  {
    var seqNo := st.txSeq;
    st.txSeq := WrapAdd8(st.txSeq, 1);
    st.unacked := SatAdd8(st.unacked, 1);
    st.pendingAck := false;
    st.segsSinceAck := 0;
    var frame := EncodeStandaloneAck(seqNo, st.lastRxSeq);
    ok := link.Write(frame);
  }

  /** Processes one frame from the link and hands over a message it completes. */
  method TakeFrame(
    frame: bytes, link: GattLink, st: SessionState, app: AppInbox, params: Params, ghost n: Node)
    returns (r: Result<bool, BtpError>)
    requires OutOk(n) && n.closed.None? && Shows(n, params, link, st, app)
    modifies st, st.reasm, app
    ensures var m := Next(n, Receive(frame));
            && m.out == n.out && m.accepted == n.accepted && m.params == n.params && m.wrote == n.wrote
            && app.delivered <= m.delivered
            && (m.closed.Some? ==> r == Err(m.closed.value))
            && (r.Ok? ==> m.closed.None? && Shows(m, params, link, st, app) && m.s.pendingAck)
            && (r.Ok? ==> r.value == (|m.delivered| != |n.delivered|))
  {
    var pkt := DecodePacket(frame);
    if pkt.Err? { return Err(pkt.error); }
    var res := st.ProcessPacket(pkt.value);
    if res.Err? { return Err(res.error); }
    if res.value.Some? {
      var ok := app.Send(res.value.value);
      if !ok { return Err(Closed); }
    }
    return Ok(res.value.Some?);
  }

  /** A run of steps the actor took from `n` to `m`, consuming `incoming` from the link. */
  ghost predicate Ran(n: Node, steps: seq<Step>, m: Node, incoming: seq<bytes>)
    requires OutOk(n)
  {
    Exec(n, steps) == Some(m) && incoming == Heard(steps)
  }

  lemma RanSnoc(n: Node, steps: seq<Step>, m: Node, incoming: seq<bytes>, step: Step)
    requires OutOk(n) && Ran(n, steps, m, incoming) && Enabled(m, step)
    ensures Ran(n, steps + [step], Next(m, step), incoming + if step.Receive? then [step.frame] else [])
    ensures OutOk(Next(m, step))
  {
    ExecSnoc(n, steps, step);
    HeardSnoc(steps, step);
    NextKeepsOutOk(m, step);
  }

  /** Where the actor stands: the run it took so far from `n` and the node it reached. */
  ghost predicate At(
    n: Node, steps: seq<Step>, m: Node, incoming: seq<bytes>,
    params: Params, link: GattLink, st: SessionState, app: AppInbox)
    reads link, st, st.reasm, app
  {
    && OutOk(n) && OutOk(m) && Ran(n, steps, m, incoming)
    && m.closed.None? && Shows(m, params, link, st, app)
  }

  /** What is left of it when an action failed: the session is over, but the frames written and messages
      handed over are still those of a run. */
  ghost predicate Ended(
    n: Node, steps: seq<Step>, m: Node, incoming: seq<bytes>, e: BtpError, link: GattLink, app: AppInbox)
    reads link, app
  {
    && OutOk(n) && OutOk(m) && Ran(n, steps, m, incoming)
    && link.writes == m.wrote && app.delivered <= m.delivered
    && (m.closed.Some? ==> m.closed == Some(e))
  }

  /** From the node `m`, which `steps` led to, the run went on to `steps'` in good order. */
  ghost predicate Goes(steps: seq<Step>, m: Node, steps': seq<Step>, ticks: nat, whole: bool) {
    OutOk(m) && steps <= steps' && Orderly(m, steps'[|steps|..], ticks, whole)
  }

  lemma GoesNowhere(steps: seq<Step>, m: Node, whole: bool)
    requires OutOk(m)
    ensures Goes(steps, m, steps, 0, whole)
  {
  }

  lemma GoesBy(steps: seq<Step>, m: Node, more: seq<Step>, ticks: nat, whole: bool)
    requires OutOk(m) && Orderly(m, more, ticks, whole)
    ensures Goes(steps, m, steps + more, ticks, whole)
  {
    hide Orderly;
    assert (steps + more)[|steps|..] == more;
  }

  /** A part of a run and what comes after it. */
  lemma GoesOn(n: Node, s0: seq<Step>, m0: Node, s1: seq<Step>, m1: Node, s2: seq<Step>, j: nat, k: nat, whole: bool)
    requires OutOk(n) && Exec(n, s0) == Some(m0) && Exec(n, s1) == Some(m1)
    requires Goes(s0, m0, s1, j, true) && Goes(s1, m1, s2, k, whole)
    ensures Goes(s0, m0, s2, j + k, whole)
  {
    hide Orderly, Exec;
    var a, b := s1[|s0|..], s2[|s1|..];
    assert s1 == s0 + a && s2 == s1 + b && s2[|s0|..] == a + b;
    ExecTail(n, s0, a);
    OrderlyAppend(m0, a, j, b, k, whole);
  }

  /** Takes one frame from the link, as a step. */
  method ReceiveStep(
    link: GattLink, st: SessionState, app: AppInbox, params: Params,
    ghost n: Node, ghost steps: seq<Step>, ghost m: Node, ghost incoming: seq<bytes>)
    returns (r: Result<bool, BtpError>, ghost steps': seq<Step>, ghost m': Node, ghost incoming': seq<bytes>)
    requires At(n, steps, m, incoming, params, link, st, app)
    modifies link, st, st.reasm, app
    ensures incoming' + link.indications == incoming + old(link.indications)
    ensures r.Err? ==> Ended(n, steps', m', incoming', r.error, link, app)
    ensures r.Ok? ==> At(n, steps', m', incoming', params, link, st, app) && m'.s.pendingAck
    ensures r.Ok? ==> |link.indications| < |old(link.indications)|
    ensures r.Ok? ==> var step := Receive(old(link.indications)[0]);
                      && steps' == steps + [step] && m' == Next(m, step) && link.writes == old(link.writes)
                      && r.value == (|m'.delivered| != |m.delivered|)
    ensures r.Err? ==> steps' == steps || (old(link.indications) != []
                                           && steps' == steps + [Receive(old(link.indications)[0])])
    ensures m'.out == m.out && m'.accepted == m.accepted
  {
    hide Next, Ran, Negotiated;
    steps', m', incoming' := steps, m, incoming;
    var next := link.Recv();
    if next.None? {
      var timedOut: bool := *;
      return Err(if timedOut then WindowTimeout else Closed), steps', m', incoming';
    }
    var frame := next.value;
    r := TakeFrame(frame, link, st, app, params, m);
    RanSnoc(n, steps, m, incoming, Receive(frame));
    steps', m', incoming' := steps + [Receive(frame)], Next(m, Receive(frame)), incoming + [frame];
  }

  /** Flushes the owed ack, as a step. */
  method AckStep(
    link: GattLink, st: SessionState, app: AppInbox, params: Params,
    ghost n: Node, ghost steps: seq<Step>, ghost m: Node, ghost incoming: seq<bytes>)
    returns (ok: bool, ghost steps': seq<Step>, ghost m': Node)
    requires At(n, steps, m, incoming, params, link, st, app) && Enabled(m, SendAck)
    modifies link`writes, st
    ensures !ok ==> Ended(n, steps', m', incoming, Closed, link, app)
    ensures ok ==> At(n, steps', m', incoming, params, link, st, app)
    ensures ok ==> m' == Next(m, SendAck) && |link.writes| == |old(link.writes)| + 1
    ensures steps' == if ok then steps + [SendAck] else steps
    ensures m'.out == m.out && m'.accepted == m.accepted
  {
    steps', m' := steps, m;
    ok := SendStandalone(link, st, app, params, m);
    if ok {
      RanSnoc(n, steps, m, incoming, SendAck);
      assert incoming + [] == incoming;
      steps', m' := steps + [SendAck], Next(m, SendAck);
    }
  }

  /** Acks early when half a window of data has come in and the own window has room. */
  method MaybeSendProactiveAck(
    link: GattLink, st: SessionState, app: AppInbox, params: Params,
    ghost n: Node, ghost steps: seq<Step>, ghost m: Node, ghost incoming: seq<bytes>)
    returns (ok: bool, ghost steps': seq<Step>, ghost m': Node)
    requires At(n, steps, m, incoming, params, link, st, app)
    modifies link`writes, st
    ensures !ok ==> Ended(n, steps', m', incoming, Closed, link, app)
    ensures ok ==> At(n, steps', m', incoming, params, link, st, app)
    ensures m'.out == m.out && m'.accepted == m.accepted
    ensures ok ==>
              (link.writes != old(link.writes) <==>
               m.s.pendingAck && m.s.unacked < params.windowSize && m.s.segsSinceAck >= 1
               && m.s.segsSinceAck >= params.windowSize / 2)
    ensures var due := Enabled(m, SendAck) && HalfWindow(m);
            if ok && due then steps' == steps + [SendAck] && m' == Next(m, SendAck)
            else steps' == steps && (ok ==> m' == m)
  {
    var half := params.windowSize / 2;
    var threshold := if half < 1 then 1 else half;
    ok, steps', m' := true, steps, m;
    if st.pendingAck && st.segsSinceAck >= threshold && st.unacked < params.windowSize {
      ok, steps', m' := AckStep(link, st, app, params, n, steps, m, incoming);
    }
  }

  /** One turn of the wait for window space: take a frame, then ack if it completed a message and there is room, or if
      half a window of data has come in. */
  method WaitForAck(
    link: GattLink, st: SessionState, app: AppInbox, params: Params,
    ghost n: Node, ghost steps: seq<Step>, ghost m: Node, ghost incoming: seq<bytes>)
    returns (r: Result<(), BtpError>, ghost steps': seq<Step>, ghost m': Node, ghost incoming': seq<bytes>)
    requires At(n, steps, m, incoming, params, link, st, app) && m.out.Some?
    modifies link, st, st.reasm, app
    ensures incoming' + link.indications == incoming + old(link.indications)
    ensures r.Err? ==> Ended(n, steps', m', incoming', r.error, link, app)
    ensures r.Ok? ==> At(n, steps', m', incoming', params, link, st, app)
    ensures r.Ok? ==> |link.indications| < |old(link.indications)|
    ensures r.Ok? ==> steps' == steps + Turn(m, old(link.indications)[0])
    ensures r.Ok? ==> var q := Next(m, Receive(old(link.indications)[0]));
                      (link.writes != old(link.writes) <==>
                       q.s.unacked < params.windowSize && (|q.delivered| == |m.delivered| ==> HalfWindow(q)))
    ensures Goes(steps, m, steps', 0, r.Ok?)
    ensures m'.out == m.out && m'.accepted == m.accepted
  {
    hide Orderly, Goes, Ran, Next;
    GoesNowhere(steps, m, false);
    ghost var heard := link.indications;
    if heard != [] { TurnGoes(steps, m, heard[0]); }
    var taken;
    taken, steps', m', incoming' := ReceiveStep(link, st, app, params, n, steps, m, incoming);
    if taken.Err? { return Err(taken.error), steps', m', incoming'; }
    ghost var received := steps';
    var ok := true;
    if !taken.value {
      ok, steps', m' := MaybeSendProactiveAck(link, st, app, params, n, steps', m', incoming');
    } else if st.unacked < params.windowSize {
      ok, steps', m' := AckStep(link, st, app, params, n, steps', m', incoming');
    }
    assert ok ==> steps' == steps + Turn(m, heard[0]) by {
      assert received == steps + [Receive(heard[0])];
      assert (steps + [Receive(heard[0])]) + [SendAck] == steps + [Receive(heard[0]), SendAck];
    }
    r := if ok then Ok(()) else Err(Closed);
  }

  /** A reception and what follows it, in good order. */
  lemma TurnGoes(steps: seq<Step>, m: Node, frame: bytes)
    requires OutOk(m) && Enabled(m, Receive(frame))
    ensures Goes(steps, m, steps + Turn(m, frame), 0, true)
    ensures Goes(steps, m, steps + [Receive(frame)], 0, false)
  {
    TurnIsOrderly(m, frame);
    hide Orderly;
    GoesBy(steps, m, Turn(m, frame), 0, true);
    GoesBy(steps, m, [Receive(frame)], 0, false);
  }

  /** Waits until the window has room. */
  method WaitForWindow(
    link: GattLink, st: SessionState, app: AppInbox, params: Params,
    ghost n: Node, ghost steps: seq<Step>, ghost m: Node, ghost incoming: seq<bytes>)
    returns (r: Result<(), BtpError>, ghost steps': seq<Step>, ghost m': Node, ghost incoming': seq<bytes>)
    requires At(n, steps, m, incoming, params, link, st, app) && m.out.Some?
    modifies link, st, st.reasm, app
    ensures incoming' + link.indications == incoming + old(link.indications)
    ensures r.Err? ==> Ended(n, steps', m', incoming', r.error, link, app)
    ensures r.Ok? ==> At(n, steps', m', incoming', params, link, st, app) && m'.s.unacked < params.windowSize
    ensures Goes(steps, m, steps', 0, r.Ok?)
    ensures m'.out == m.out && m'.accepted == m.accepted
  {
    hide Goes, Orderly, Next, Exec;
    steps', m', incoming' := steps, m, incoming;
    GoesNowhere(steps, m, true);
    while st.unacked >= params.windowSize
      invariant At(n, steps', m', incoming', params, link, st, app)
      invariant incoming' + link.indications == incoming + old(link.indications)
      invariant Goes(steps, m, steps', 0, true)
      invariant m'.out == m.out && m'.accepted == m.accepted
      decreases |link.indications|
    {
      ghost var s1, m1 := steps', m';
      var w;
      w, steps', m', incoming' := WaitForAck(link, st, app, params, n, steps', m', incoming');
      GoesOn(n, steps, m, s1, m1, steps', 0, 0, w.Ok?);
      if w.Err? { return Err(w.error), steps', m', incoming'; }
    }
    return Ok(()), steps', m', incoming';
  }

  /** Writes the next segment, as a step. */
  method SegmentStep(
    link: GattLink, st: SessionState, app: AppInbox, params: Params, msg: bytes, off: nat, first: bool,
    ghost n: Node, ghost steps: seq<Step>, ghost m: Node, ghost incoming: seq<bytes>)
    returns (ok: bool, end: nat, ghost steps': seq<Step>, ghost m': Node)
    requires At(n, steps, m, incoming, params, link, st, app) && Enabled(m, SendSegment)
    requires m.out == Some(Outgoing(msg, off, first)) && off <= |msg| <= MAX_MESSAGE && Negotiated(params)
    modifies link`writes, st
    ensures !ok ==> Ended(n, steps', m', incoming, Closed, link, app) && m' == m
    ensures ok ==> At(n, steps', m', incoming, params, link, st, app) && m' == Next(m, SendSegment)
    ensures steps' == if ok then steps + [SendSegment] else steps
    ensures ok ==> m'.accepted == m.accepted
                   && m'.out == if end < |msg| then Some(Outgoing(msg, end, false)) else None
    ensures off <= end <= |msg| && (off < end || end == |msg|)
  {
    hide Ran;
    steps', m' := steps, m;
    var withAck := st.pendingAck && first;
    var cap := SegmentPayloadCapacity(params.segmentSize, first, withAck);
    end := if off + cap < |msg| then off + cap else |msg|;
    var ending := end == |msg|;
    var pos := if first then First(ending) else if ending then Last else Middle;
    var seqNo := st.txSeq;
    st.txSeq := WrapAdd8(st.txSeq, 1);
    st.unacked := SatAdd8(st.unacked, 1);
    var ack: Option<uint8> := None;
    if withAck {
      st.pendingAck := false;
      st.segsSinceAck := 0;
      ack := Some(st.lastRxSeq);
    }
    var frame := EncodeDataPacket(seqNo, ack, pos, if first then Some(|msg|) else None, msg[off..end]);
    ok := link.Write(frame);
    if ok {
      RanSnoc(n, steps, m, incoming, SendSegment);
      assert incoming + [] == incoming;
      steps', m' := steps + [SendSegment], Next(m, SendSegment);
    }
  }

  /** Hands a message to the endpoint, as a step. */
  lemma SubmitStep(
    msg: bytes, n: Node, steps: seq<Step>, m: Node, incoming: seq<bytes>)
    requires OutOk(n) && OutOk(m) && Ran(n, steps, m, incoming) && m.closed.None? && m.out.None?
    ensures var m' := Next(m, Submit(msg));
            && OutOk(m') && Ran(n, steps + [Submit(msg)], m', incoming)
            && m'.s == m.s && m'.params == m.params && m'.wrote == m.wrote && m'.delivered == m.delivered
            && (|msg| > MAX_MESSAGE ==> m'.closed == Some(MessageTooLong) && m'.accepted == m.accepted)
            && (|msg| <= MAX_MESSAGE ==>
                  m'.closed.None? && m'.accepted == m.accepted + [msg] && m'.out == Some(Outgoing(msg, 0, true)))
  {
    RanSnoc(n, steps, m, incoming, Submit(msg));
    assert incoming + [] == incoming;
  }

  /** A step of its own other than an ack, in good order. */
  lemma OwnStepGoes(steps: seq<Step>, m: Node, step: Step)
    requires OutOk(m) && Enabled(m, step) && !step.Receive?
    ensures Goes(steps, m, steps + [step], if step.SendAck? then 1 else 0, true)
  {
    OwnStepIsOrderly(m, step);
    hide Orderly;
    GoesBy(steps, m, [step], if step.SendAck? then 1 else 0, true);
  }

  /** One segment: the wait for room, and the write. */
  method SendOneSegment(
    link: GattLink, st: SessionState, app: AppInbox, params: Params, msg: bytes, off: nat, first: bool,
    ghost n: Node, ghost steps: seq<Step>, ghost m: Node, ghost incoming: seq<bytes>)
    returns (r: Result<nat, BtpError>, ghost steps': seq<Step>, ghost m': Node, ghost incoming': seq<bytes>)
    requires At(n, steps, m, incoming, params, link, st, app) && Negotiated(params)
    requires m.out == Some(Outgoing(msg, off, first)) && off <= |msg| <= MAX_MESSAGE
    modifies link, st, st.reasm, app
    ensures incoming' + link.indications == incoming + old(link.indications)
    ensures r.Err? ==> Ended(n, steps', m', incoming', r.error, link, app)
    ensures r.Ok? ==> At(n, steps', m', incoming', params, link, st, app)
                      && off <= r.value <= |msg| && (off < r.value || r.value == |msg|)
                      && m'.out == if r.value < |msg| then Some(Outgoing(msg, r.value, false)) else None
    ensures Goes(steps, m, steps', 0, r.Ok?) && m'.accepted == m.accepted
  {
    hide Goes, Orderly, Next, Exec, Negotiated;
    var w;
    w, steps', m', incoming' := WaitForWindow(link, st, app, params, n, steps, m, incoming);
    if w.Err? { return Err(w.error), steps', m', incoming'; }
    ghost var s1, m1 := steps', m';
    OwnStepGoes(s1, m1, SendSegment);
    GoesNowhere(s1, m1, false);
    var ok, end;
    ok, end, steps', m' := SegmentStep(link, st, app, params, msg, off, first, n, steps', m', incoming');
    GoesOn(n, steps, m, s1, m1, steps', 0, 0, ok);
    r := if ok then Ok(end) else Err(Closed);
  }

  /** Sends the segments of a message already handed to the endpoint. */
  method SendSegments(
    link: GattLink, st: SessionState, app: AppInbox, params: Params, msg: bytes,
    ghost n: Node, ghost steps: seq<Step>, ghost m: Node, ghost incoming: seq<bytes>)
    returns (r: Result<(), BtpError>, ghost steps': seq<Step>, ghost m': Node, ghost incoming': seq<bytes>)
    requires At(n, steps, m, incoming, params, link, st, app) && Negotiated(params)
    requires |msg| <= MAX_MESSAGE && m.out == Some(Outgoing(msg, 0, true))
    modifies link, st, st.reasm, app
    ensures incoming' + link.indications == incoming + old(link.indications)
    ensures r.Err? ==> Ended(n, steps', m', incoming', r.error, link, app)
    ensures r.Ok? ==> At(n, steps', m', incoming', params, link, st, app) && m'.out.None?
    ensures Goes(steps, m, steps', 0, r.Ok?) && m'.accepted == m.accepted
  {
    hide Goes, Orderly, Next, Exec, Negotiated;
    steps', m', incoming' := steps, m, incoming;
    GoesNowhere(steps, m, true);
    var off: nat := 0;
    var first := true;
    while first || off < |msg|
      invariant off <= |msg|
      invariant At(n, steps', m', incoming', params, link, st, app)
      invariant incoming' + link.indications == incoming + old(link.indications)
      invariant Goes(steps, m, steps', 0, true) && m'.accepted == m.accepted
      invariant m'.out == if first || off < |msg| then Some(Outgoing(msg, off, first)) else None
      decreases first, |msg| - off
    {
      ghost var s1, m1 := steps', m';
      var w;
      w, steps', m', incoming' := SendOneSegment(link, st, app, params, msg, off, first, n, steps', m', incoming');
      GoesOn(n, steps, m, s1, m1, steps', 0, 0, w.Ok?);
      if w.Err? { return Err(w.error), steps', m', incoming'; }
      off := w.value;
      first := false;
    }
    return Ok(()), steps', m', incoming';
  }

  /** Sends one message, segment by segment, waiting for acks whenever the window is full. */
  method SendMessage(
    link: GattLink, st: SessionState, app: AppInbox, params: Params, msg: bytes,
    ghost n: Node, ghost steps: seq<Step>, ghost m: Node, ghost incoming: seq<bytes>)
    returns (r: Result<(), BtpError>, ghost steps': seq<Step>, ghost m': Node, ghost incoming': seq<bytes>)
    requires At(n, steps, m, incoming, params, link, st, app) && m.out.None? && Negotiated(params)
    modifies link, st, st.reasm, app
    ensures incoming' + link.indications == incoming + old(link.indications)
    ensures r.Err? ==> Ended(n, steps', m', incoming', r.error, link, app)
    ensures r.Ok? ==> At(n, steps', m', incoming', params, link, st, app) && m'.out.None?
    ensures m'.accepted == if |msg| <= MAX_MESSAGE then m.accepted + [msg] else m.accepted
    ensures |msg| > MAX_MESSAGE ==> r == Err(MessageTooLong)
    ensures Goes(steps, m, steps', 0, r.Ok?)
  {
    SubmitStep(msg, n, steps, m, incoming);
    OwnStepGoes(steps, m, Submit(msg));
    ghost var s1, m1 := steps + [Submit(msg)], Next(m, Submit(msg));
    hide Goes, Orderly, Next, Exec, Negotiated;
    steps', m', incoming' := s1, m1, incoming;
    GoesNowhere(s1, m1, false);
    if |msg| > MAX_MESSAGE {
      GoesOn(n, steps, m, s1, m1, steps', 0, 0, false);
      return Err(MessageTooLong), steps', m', incoming';
    }
    r, steps', m', incoming' := SendSegments(link, st, app, params, msg, n, steps', m', incoming');
    GoesOn(n, steps, m, s1, m1, steps', 0, 0, r.Ok?);
  }

  /** What the select loop wakes up for; a stale tick is one without ack progress for too long. */
  datatype Wake = Indication | AppMessage(msg: bytes) | Tick(stale: bool)

  /** The messages the application sent. */
  function Messages(wakes: seq<Wake>): seq<bytes> {
    if wakes == [] then []
    else
      var last := wakes[|wakes| - 1];
      Messages(wakes[..|wakes| - 1]) + if last.AppMessage? then [last.msg] else []
  }

  lemma MessagesSnoc(wakes: seq<Wake>, i: nat)
    requires i < |wakes|
    ensures Messages(wakes[..i + 1]) == Messages(wakes[..i]) + if wakes[i].AppMessage? then [wakes[i].msg] else []
  {
    assert wakes[..i + 1][..i] == wakes[..i];
  }

  lemma {:induction false} MessagesPrefix(wakes: seq<Wake>, i: nat)
    requires i <= |wakes|
    ensures Messages(wakes[..i]) <= Messages(wakes)
    decreases |wakes|
  {
    if i == |wakes| {
      assert wakes[..i] == wakes;
    } else {
      MessagesPrefix(wakes[..|wakes| - 1], i);
      assert wakes[..|wakes| - 1][..i] == wakes[..i];
    }
  }

  /** A frame from the link outside of sending: acks early while a message is incomplete and half a window of data has
      come in, and leaves the ack to the answer otherwise. */
  method OnIndication(
    link: GattLink, st: SessionState, app: AppInbox, params: Params,
    ghost n: Node, ghost steps: seq<Step>, ghost m: Node, ghost incoming: seq<bytes>)
    returns (r: Result<(), BtpError>, ghost steps': seq<Step>, ghost m': Node, ghost incoming': seq<bytes>)
    requires At(n, steps, m, incoming, params, link, st, app) && m.out.None?
    modifies link, st, st.reasm, app
    ensures incoming' + link.indications == incoming + old(link.indications)
    ensures r.Err? ==> Ended(n, steps', m', incoming', r.error, link, app)
    ensures r.Ok? ==> At(n, steps', m', incoming', params, link, st, app)
    ensures r.Ok? ==> |link.indications| < |old(link.indications)|
    ensures r.Ok? ==> steps' == steps + Turn(m, old(link.indications)[0])
    ensures r.Ok? ==> var q := Next(m, Receive(old(link.indications)[0]));
                      (link.writes != old(link.writes) <==>
                       |q.delivered| == |m.delivered| && q.s.unacked < params.windowSize
                       && q.s.segsSinceAck >= 1 && q.s.segsSinceAck >= params.windowSize / 2)
    ensures Goes(steps, m, steps', 0, r.Ok?)
    ensures m'.out == m.out && m'.accepted == m.accepted
  {
    hide Orderly, Goes, Ran, Next;
    GoesNowhere(steps, m, false);
    ghost var heard := link.indications;
    if heard != [] { TurnGoes(steps, m, heard[0]); }
    var taken;
    taken, steps', m', incoming' := ReceiveStep(link, st, app, params, n, steps, m, incoming);
    if taken.Err? { return Err(taken.error), steps', m', incoming'; }
    ghost var received := steps';
    var ok := true;
    if !taken.value {
      ok, steps', m' := MaybeSendProactiveAck(link, st, app, params, n, steps', m', incoming');
    }
    assert ok ==> steps' == steps + Turn(m, heard[0]) by {
      assert received == steps + [Receive(heard[0])];
      assert (steps + [Receive(heard[0])]) + [SendAck] == steps + [Receive(heard[0]), SendAck];
    }
    r := if ok then Ok(()) else Err(Closed);
  }

  /** The keepalive tick: gives up without ack progress for too long, and sends the owed ack if there is room. */
  method KeepAlive(
    link: GattLink, st: SessionState, app: AppInbox, params: Params, stale: bool,
    ghost n: Node, ghost steps: seq<Step>, ghost m: Node, ghost incoming: seq<bytes>)
    returns (ok: bool, ghost steps': seq<Step>, ghost m': Node)
    requires At(n, steps, m, incoming, params, link, st, app)
    modifies link`writes, st
    ensures !ok ==> Ended(n, steps', m', incoming, Closed, link, app)
    ensures ok ==> At(n, steps', m', incoming, params, link, st, app) && !Enabled(m', SendAck)
    ensures ok ==> m' == if Enabled(m, SendAck) then Next(m, SendAck) else m
    ensures steps' == if ok && Enabled(m, SendAck) then steps + [SendAck] else steps
    ensures m'.out == m.out && m'.accepted == m.accepted
    ensures m.s.unacked > 0 && stale ==> !ok
  {
    hide Ran;
    ok, steps', m' := true, steps, m;
    if st.unacked > 0 && stale { return false, steps', m'; }
    if st.pendingAck && st.unacked < params.windowSize {
      ok, steps', m' := AckStep(link, st, app, params, n, steps, m, incoming);
    }
  }

  /** How often the keepalive timer fired. */
  function Ticks(wakes: seq<Wake>): nat {
    if wakes == [] then 0 else Ticks(wakes[..|wakes| - 1]) + if wakes[|wakes| - 1].Tick? then 1 else 0
  }

  lemma TicksSnoc(wakes: seq<Wake>, i: nat)
    requires i < |wakes|
    ensures Ticks(wakes[..i + 1]) == Ticks(wakes[..i]) + if wakes[i].Tick? then 1 else 0
  {
    assert wakes[..i + 1][..i] == wakes[..i];
  }

  lemma {:induction false} TicksPrefix(wakes: seq<Wake>, i: nat)
    requires i <= |wakes|
    ensures Ticks(wakes[..i]) <= Ticks(wakes)
    decreases |wakes|
  {
    if i == |wakes| {
      assert wakes[..i] == wakes;
    } else {
      TicksPrefix(wakes[..|wakes| - 1], i);
      assert wakes[..|wakes| - 1][..i] == wakes[..i];
    }
  }

  /** One wake of the session. */
  method OnWake(
    link: GattLink, st: SessionState, app: AppInbox, params: Params, wake: Wake,
    ghost n: Node, ghost steps: seq<Step>, ghost m: Node, ghost incoming: seq<bytes>)
    returns (ok: bool, ghost steps': seq<Step>, ghost m': Node, ghost incoming': seq<bytes>)
    requires At(n, steps, m, incoming, params, link, st, app) && m.out.None? && Negotiated(params)
    modifies link, st, st.reasm, app
    ensures incoming' + link.indications == incoming + old(link.indications)
    ensures OutOk(n) && OutOk(m') && Ran(n, steps', m', incoming')
    ensures link.writes == m'.wrote && app.delivered <= m'.delivered
    ensures ok ==> At(n, steps', m', incoming', params, link, st, app) && m'.out.None?
    ensures Goes(steps, m, steps', if wake.Tick? then 1 else 0, ok)
    ensures m.accepted <= m'.accepted <= m.accepted + if wake.AppMessage? then [wake.msg] else []
    ensures ok && wake.AppMessage? ==> m'.accepted == m.accepted + [wake.msg]
    ensures ok && wake.Tick? ==> !Enabled(m', SendAck)
  {
    hide Goes, Orderly, Next, Exec, Ran, Negotiated;
    match wake {
      case Indication =>
        var taken;
        taken, steps', m', incoming' := OnIndication(link, st, app, params, n, steps, m, incoming);
        ok := taken.Ok?;
      case AppMessage(msg) =>
        var sent;
        sent, steps', m', incoming' := SendMessage(link, st, app, params, msg, n, steps, m, incoming);
        ok := sent.Ok?;
      case Tick(stale) =>
        incoming' := incoming;
        TickGoes(steps, m);
        ok, steps', m' := KeepAlive(link, st, app, params, stale, n, steps, m, incoming);
        if ok && Enabled(m, SendAck) {
        } else if ok { GoesNowhereTick(steps, m, true); } else { GoesNowhereTick(steps, m, false); }
    }
  }

  lemma TickGoes(steps: seq<Step>, m: Node)
    requires OutOk(m)
    ensures Enabled(m, SendAck) ==> Goes(steps, m, steps + [SendAck], 1, true)
  {
    hide Goes;
    if Enabled(m, SendAck) { OwnStepGoes(steps, m, SendAck); }
  }

  lemma GoesNowhereTick(steps: seq<Step>, m: Node, whole: bool)
    requires OutOk(m)
    ensures Goes(steps, m, steps, 1, whole)
  {
  }

  /** The whole life of a session: whatever wakes it up, in whatever order, the frames it writes and the messages it
      hands over are those of a run of the step system from the handshake on. In this run a separate ack stands where a
      reception calls for one, and otherwise only for a tick. As long as the session lives, it has taken every message,
      cut it completely, and handed over everything delivered. */
  method RunSession(link: GattLink, app: AppInbox, params: Params, wakes: seq<Wake>)
    returns (alive: bool, ghost steps: seq<Step>, ghost m: Node)
    requires Negotiated(params) && link.writes == [] && app.delivered == []
    modifies link, app
    ensures Exec(FreshNode(0, params), steps) == Some(m)
    ensures old(link.indications) == Heard(steps) + link.indications
    ensures link.writes == m.wrote && app.delivered <= m.delivered && m.accepted <= Messages(wakes)
    ensures alive ==> m.closed.None? && m.out.None? && m.accepted == Messages(wakes) && app.delivered == m.delivered
    ensures alive && wakes != [] && wakes[|wakes| - 1].Tick? ==> !Enabled(m, SendAck)
    ensures Orderly(FreshNode(0, params), steps, Ticks(wakes), alive)
  {
    hide Messages, Ticks, Next, Ran, Goes, Orderly, Exec;
    ghost var n := FreshNode(0, params);
    var st := new SessionState();
    alive, steps, m := true, [], n;
    NoMessages(wakes);
    NothingRan(n);
    GoesNowhere([], n, true);
    ghost var incoming: seq<bytes> := [];
    for i := 0 to |wakes|
      invariant alive && At(n, steps, m, incoming, params, link, st, app) && m.out.None?
      invariant incoming + link.indications == old(link.indications)
      invariant fresh(st) && fresh(st.reasm)
      invariant m.accepted == Messages(wakes[..i])
      invariant i > 0 && wakes[i - 1].Tick? ==> !Enabled(m, SendAck)
      invariant Goes([], n, steps, Ticks(wakes[..i]), true)
    {
      MessagesSnoc(wakes, i);
      MessagesPrefix(wakes, i + 1);
      TicksSnoc(wakes, i);
      RanSays(n, steps, m, incoming);
      ghost var s1, m1 := steps, m;
      alive, steps, m, incoming := OnWake(link, st, app, params, wakes[i], n, steps, m, incoming);
      RanSays(n, steps, m, incoming);
      GoesFrom(n, s1, m1, steps, Ticks(wakes[..i]), if wakes[i].Tick? then 1 else 0, alive);
      if !alive {
        TicksPrefix(wakes, i + 1);
        GoesToEnd(n, steps, Ticks(wakes[..i + 1]), Ticks(wakes), alive);
        return;
      }
    }
    RanSays(n, steps, m, incoming);
    assert wakes[..|wakes|] == wakes;
    GoesToEnd(n, steps, Ticks(wakes), Ticks(wakes), alive);
  }

  lemma GoesFrom(n: Node, s1: seq<Step>, m1: Node, s2: seq<Step>, j: nat, k: nat, whole: bool)
    requires OutOk(n) && Exec(n, s1) == Some(m1)
    requires Goes([], n, s1, j, true) && Goes(s1, m1, s2, k, whole)
    ensures Goes([], n, s2, j + k, whole)
  {
    hide Goes;
    GoesOn(n, [], n, s1, m1, s2, j, k, whole);
  }

  lemma GoesToEnd(n: Node, steps: seq<Step>, j: nat, k: nat, whole: bool)
    requires Goes([], n, steps, j, whole) && j <= k
    ensures Orderly(n, steps, k, whole)
  {
    hide Orderly;
    assert steps[0..] == steps;
    MoreTicks(n, steps, j, k, whole);
  }

  lemma NoMessages(wakes: seq<Wake>)
    ensures Messages(wakes[..0]) == [] && Ticks(wakes[..0]) == 0
  {
  }

  lemma NothingRan(n: Node)
    requires OutOk(n)
    ensures Ran(n, [], n, [])
  {
  }

  lemma RanSays(n: Node, steps: seq<Step>, m: Node, incoming: seq<bytes>)
    requires OutOk(n) && Ran(n, steps, m, incoming)
    ensures Exec(n, steps) == Some(m) && incoming == Heard(steps)
  {
  }
}
