/** What the two sides of an exchange owe each other: every message that asks for it is acknowledged, and an
    acknowledgement that comes back ends the wait (crates/mat-controller/src/exchange.rs). */
module ExchangeLaws {
  import opened Wrappers
  import opened ReplayWindow
  import opened Exchange

  // ---------------------------------------------------------------- one message

  /** A packet of an unsecured session, of this exchange, from the peer's address, written by the other role. */
  predicate Addressed(e: End, a: Arrival) {
    && a.from == e.peer && a.packet.Some?
    && a.packet.value.sessionId == 0 && a.packet.value.securityFlags == 0
    && a.packet.value.exchangeId == e.exchangeId
    && match e.role case Initiator(_) => !a.packet.value.initiator case Responder(_, _) => a.packet.value.initiator
  }

  /** The acknowledgement of counter `c` that the side `e` writes: alone, not asking for one itself, with the number
      of the exchange and the flag of its role. */
  predicate AckOf(e: End, c: uint32, p: Packet) {
    && p.acked == Some(c) && p.opcode == 0x10 && p.protocolId == 0 && p.payload == [] && !p.needsAck
    && p.exchangeId == e.exchangeId && p.counter == e.counter && p.sessionId == 0 && p.securityFlags == 0
    && match e.role
       case Initiator(id) => p.initiator && p.source == Some(id) && p.destination == None
       case Responder(id, _) => !p.initiator && p.source == None && p.destination == id
  }

  /** A message that asks for it over a transport without acknowledgements is acknowledged, once, whether it is
      fresh or a duplicate; nothing else is. Only a fresh message is returned, and becomes the latest one. */
  lemma AckedWhenAsked(e: End, a: Arrival)
    ensures var (e1, r) := Screened(e, a);
            && (if Addressed(e, a) && a.packet.value.needsAck && !e.reliable then
                  && |e1.acks| == |e.acks| + 1 && e1.acks[..|e.acks|] == e.acks
                  && AckOf(e, a.packet.value.counter, e1.acks[|e.acks|])
                  && e1.counter == (e.counter + 1) % 0x1_0000_0000
                else e1.acks == e.acks && e1.counter == e.counter)
            && (r.Some? <==> Addressed(e, a) && Check(e.window, a.packet.value.counter).1)
            && (r.Some? ==> r == a.packet)
            && e1.window == (if Addressed(e, a) then Check(e.window, a.packet.value.counter).0 else e.window)
            && e1.data == e.data
            && (e.role.Responder? ==>
                  && e1.role.Responder? && e1.role.peerNodeId == e.role.peerNodeId
                  && e1.role.lastPeerCounter == if r.Some? then r.value.counter else e.role.lastPeerCounter)
            && (e.role.Initiator? ==> e1.role == e.role)
  {
    hide Check;
  }

  /** A message is written with the next counter; that of a responder acknowledges the latest message it took, that
      of an initiator none. */
  lemma NextCarries(e: End, protocolId: uint16, opcode: uint8, needsAck: bool, payload: bytes)
    ensures var e1 := SendData(e, protocolId, opcode, needsAck, payload);
            && |e1.data| == |e.data| + 1 && e1.data[..|e.data|] == e.data && e1.acks == e.acks
            && e1.counter == (e.counter + 1) % 0x1_0000_0000 && e1.role == e.role
            && var p := e1.data[|e.data|];
               && p.counter == e.counter && p.exchangeId == e.exchangeId && p.sessionId == 0 && p.securityFlags == 0
               && p.protocolId == protocolId && p.opcode == opcode && p.payload == payload
               && (p.needsAck <==> needsAck && !e.reliable)
               && match e.role
                  case Initiator(id) => p.initiator && p.acked == None && p.source == Some(id) && p.destination == None
                  case Responder(id, last) =>
                    !p.initiator && p.acked == Some(last) && p.source == None && p.destination == id
  {
  }

  /** A responder that took a message acknowledges it by its next one, which therefore ends a wait for the
      acknowledgement, and the wait for an answer unless it is a bare acknowledgement itself. */
  lemma AnswerAcknowledges(
    e: End, a: Arrival, protocolId: uint16, opcode: uint8, needsAck: bool, payload: bytes)
    requires e.role.Responder? && Screened(e, a).1.Some?
    ensures var e1 := SendData(Screened(e, a).0, protocolId, opcode, needsAck, payload);
            var p, c := e1.data[|e1.data| - 1], Screened(e, a).1.value.counter;
            && p.acked == Some(c) && Verdict(Final, c, p) == Some(None)
            && Verdict(Answer, c, p) == Some(if protocolId == 0 && opcode == 0x10 then None else Some(p))
  {
    hide Check;
    AckedWhenAsked(e, a);
    NextCarries(Screened(e, a).0, protocolId, opcode, needsAck, payload);
  }

  // ---------------------------------------------------------------- one wait, and all of them

  function ScreenAll(e: End, xs: seq<Arrival>): End {
    if xs == [] then e else Screened(ScreenAll(e, xs[..|xs| - 1]), xs[|xs| - 1]).0
  }

  /** What the `i`-th of the arrivals is to the wait, after those before it were screened. */
  function VerdictAt(e: End, xs: seq<Arrival>, i: nat, kind: Kind, c: uint32): Option<Option<Packet>>
    requires i < |xs|
  {
    var m := Screened(ScreenAll(e, xs[..i]), xs[i]).1;
    if m.Some? then Verdict(kind, c, m.value) else None
  }

  lemma {:induction false} ScreenAllCons(e: End, x: Arrival, xs: seq<Arrival>)
    ensures ScreenAll(e, [x] + xs) == ScreenAll(Screened(e, x).0, xs)
    decreases |xs|
  {
    hide Screened;
    if xs == [] {
      assert [x] + xs == [x] && [x][..0] == [];
      assert ScreenAll(e, [x][..0]) == e;
    } else {
      ScreenAllCons(e, x, xs[..|xs| - 1]);
      assert ([x] + xs)[..|xs|] == [x] + xs[..|xs| - 1];
    }
  }

  lemma VerdictLater(e: End, xs: seq<Arrival>, i: nat, kind: Kind, c: uint32)
    requires 0 < i < |xs|
    ensures VerdictAt(e, xs, i, kind, c) == VerdictAt(Screened(e, xs[0]).0, xs[1..], i - 1, kind, c)
  {
    hide Screened, Verdict;
    ScreenAllCons(e, xs[0], xs[1..i]);
    assert [xs[0]] + xs[1..i] == xs[..i];
    assert xs[1..][..i - 1] == xs[1..i];
  }

  /** The first message that ends a wait ends it there and then. */
  lemma {:induction false} AwaitedFirst(e: End, xs: seq<Arrival>, kind: Kind, c: uint32, i: nat)
    requires i < |xs| && VerdictAt(e, xs, i, kind, c).Some?
    requires forall j :: 0 <= j < i ==> VerdictAt(e, xs, j, kind, c).None?
    ensures Awaited(e, xs, kind, c) == (ScreenAll(e, xs[..i + 1]), VerdictAt(e, xs, i, kind, c))
    decreases i
  {
    hide Screened, Verdict;
    var e1, rest := Screened(e, xs[0]).0, xs[1..];
    assert xs[..0] == [] && ScreenAll(e, xs[..0]) == e;
    ScreenAllCons(e, xs[0], rest[..i]);
    assert [xs[0]] + rest[..i] == xs[..i + 1];
    if i > 0 {
      assert VerdictAt(e, xs, 0, kind, c).None?;
      forall j | 0 < j <= i
        ensures VerdictAt(e, xs, j, kind, c) == VerdictAt(e1, rest, j - 1, kind, c)
      {
        VerdictLater(e, xs, j, kind, c);
      }
      assert forall j :: 0 <= j < i - 1 ==> VerdictAt(e1, rest, j, kind, c) == VerdictAt(e, xs, j + 1, kind, c);
      hide VerdictAt;
      AwaitedFirst(e1, rest, kind, c, i - 1);
    }
  }

  /** Without such a message the wait goes on to the end of the arrivals. */
  lemma {:induction false} AwaitedQuiet(e: End, xs: seq<Arrival>, kind: Kind, c: uint32)
    requires forall j :: 0 <= j < |xs| ==> VerdictAt(e, xs, j, kind, c).None?
    ensures Awaited(e, xs, kind, c) == (ScreenAll(e, xs), None)
    decreases |xs|
  {
    hide Screened, Verdict;
    if xs != [] {
      var e1, rest := Screened(e, xs[0]).0, xs[1..];
      assert xs[..0] == [] && ScreenAll(e, xs[..0]) == e;
      ScreenAllCons(e, xs[0], rest);
      assert [xs[0]] + rest == xs;
      assert VerdictAt(e, xs, 0, kind, c).None?;
      forall j | 0 <= j < |rest|
        ensures VerdictAt(e1, rest, j, kind, c).None?
      {
        VerdictLater(e, xs, j + 1, kind, c);
      }
      hide VerdictAt;
      AwaitedQuiet(e1, rest, kind, c);
    }
  }

  /** Some message ends the wait. */
  ghost predicate Ends(e: End, xs: seq<Arrival>, kind: Kind, c: uint32) {
    exists i :: 0 <= i < |xs| && VerdictAt(e, xs, i, kind, c).Some?
  }

  /** A wait ends exactly if some message ends it. */
  lemma AwaitedIff(e: End, xs: seq<Arrival>, kind: Kind, c: uint32)
    ensures Awaited(e, xs, kind, c).1.Some? <==> Ends(e, xs, kind, c)
    ensures !Ends(e, xs, kind, c) ==> Awaited(e, xs, kind, c).0 == ScreenAll(e, xs)
  {
    hide Awaited, VerdictAt, ScreenAll;
    if i :| 0 <= i < |xs| && VerdictAt(e, xs, i, kind, c).Some? {
      var k := Least(e, xs, kind, c, i);
      AwaitedFirst(e, xs, kind, c, k);
    } else {
      AwaitedQuiet(e, xs, kind, c);
    }
  }

  lemma {:induction false} Least(e: End, xs: seq<Arrival>, kind: Kind, c: uint32, i: nat) returns (k: nat)
    requires i < |xs| && VerdictAt(e, xs, i, kind, c).Some?
    ensures k <= i && VerdictAt(e, xs, k, kind, c).Some?
    ensures forall j :: 0 <= j < k ==> VerdictAt(e, xs, j, kind, c).None?
    decreases i
  {
    hide VerdictAt;
    k := i;
    if j :| 0 <= j < i && VerdictAt(e, xs, j, kind, c).Some? { k := Least(e, xs, kind, c, j); }
  }

  /** The side as it starts its `n`-th wait from the `k`-th arrivals on, when the ones before did not end: the
      message is sent, what arrives is screened, and so on. */
  function Waiting(e: End, p: Packet, arrivals: nat -> seq<Arrival>, k: nat, n: nat): End
    decreases n
  {
    var sent := e.(data := e.data + [p]);
    if n == 0 then sent else Waiting(ScreenAll(sent, arrivals(k)), p, arrivals, k + 1, n - 1)
  }

  /** A message ends the `n`-th wait. */
  ghost predicate EndsIn(e: End, p: Packet, kind: Kind, arrivals: nat -> seq<Arrival>, k: nat, n: nat) {
    Ends(Waiting(e, p, arrivals, k, n), arrivals(k + n), kind, p.counter)
  }

  lemma EndsLater(e: End, p: Packet, kind: Kind, arrivals: nat -> seq<Arrival>, k: nat, n: nat)
    requires n > 0
    ensures EndsIn(e, p, kind, arrivals, k, n)
            <==> EndsIn(ScreenAll(e.(data := e.data + [p]), arrivals(k)), p, kind, arrivals, k + 1, n - 1)
  {
    hide Ends, ScreenAll;
    assert k + n == k + 1 + (n - 1);
  }

  /** Sending ends with a result exactly if, in one of the waits, a message ends it: an unanswered message is sent
      until the retries are used up, an answered one is not. */
  lemma {:induction false} SendingIff(e: End, p: Packet, kind: Kind, left: nat, arrivals: nat -> seq<Arrival>, k: nat)
    ensures Sending(e, p, kind, left, arrivals, k).1.Some? <==> exists n :: 0 <= n <= left && EndsIn(e, p, kind, arrivals, k, n)
    decreases left
  {
    hide Awaited, Ends, ScreenAll;
    var sent := e.(data := e.data + [p]);
    AwaitedIff(sent, arrivals(k), kind, p.counter);
    assert EndsIn(e, p, kind, arrivals, k, 0) <==> Ends(sent, arrivals(k + 0), kind, p.counter);
    if !EndsIn(e, p, kind, arrivals, k, 0) {
      var after := ScreenAll(sent, arrivals(k));
      hide EndsIn;
      if left > 0 {
        SendingIff(after, p, kind, left - 1, arrivals, k + 1);
        forall n | 0 < n <= left
          ensures EndsIn(e, p, kind, arrivals, k, n) <==> EndsIn(after, p, kind, arrivals, k + 1, n - 1)
        {
          EndsLater(e, p, kind, arrivals, k, n);
        }
        if Sending(after, p, kind, left - 1, arrivals, k + 1).1.Some? {
          var n :| 0 <= n <= left - 1 && EndsIn(after, p, kind, arrivals, k + 1, n);
          assert EndsIn(e, p, kind, arrivals, k, n + 1);
        }
      }
    }
  }

  // ---------------------------------------------------------------- an acknowledgement comes back

  /** The packet is of this exchange, with the flag of the side's role and a counter the side has used up, and asks
      for an acknowledgement only over a transport without them. */
  predicate Own(e: End, p: Packet) {
    && p.exchangeId == e.exchangeId && p.sessionId == 0 && p.securityFlags == 0 && p.initiator == e.role.Initiator?
    && (p.needsAck ==> !e.reliable) && p.counter < e.counter
  }

  ghost predicate AllOwn(e: End) {
    && (forall k :: 0 <= k < |e.data| ==> Own(e, e.data[k]))
    && forall k :: 0 <= k < |e.acks| ==> Own(e, e.acks[k])
  }

  /** The side has taken no counter as large as `c`. */
  predicate Behind(e: End, c: uint32) { e.window.empty || e.window.max < c }

  /** Two sides of one exchange over one kind of transport, whose packets are their own, and neither of which has
      taken a counter the other has not used. */
  ghost predicate Match(e: End, o: End) {
    && e.exchangeId == o.exchangeId && e.role.Initiator? != o.role.Initiator? && e.reliable == o.reliable
    && AllOwn(e) && AllOwn(o) && Behind(e, o.counter) && Behind(o, e.counter)
  }

  ghost predicate Paired(w: World) { Match(w.a, w.b) }

  /** Neither side is at the last counter, after which counters start again at 0. */
  predicate CountersLeft(w: World) { w.a.counter < 0xFFFF_FFFF && w.b.counter < 0xFFFF_FFFF }

  /** What stays the same about a side, and what only grows. */
  ghost predicate Grown(e: End, e1: End) {
    && e1.exchangeId == e.exchangeId && e1.reliable == e.reliable && e1.role.Initiator? == e.role.Initiator?
    && e1.counter >= e.counter
  }

  lemma OwnGrown(e: End, e1: End, p: Packet)
    requires Own(e, p) && Grown(e, e1)
    ensures Own(e1, p)
  {
  }

  /** Receiving a packet leaves a side with packets of its own, and behind what it was behind, if the packet was. */
  lemma ReceiveOwn(e: End, x: Arrival, c: uint32)
    requires AllOwn(e) && e.counter < 0xFFFF_FFFF && Behind(e, c)
    requires Addressed(e, x) ==> x.packet.value.counter < c
    ensures AllOwn(Screened(e, x).0) && Grown(e, Screened(e, x).0) && Behind(Screened(e, x).0, c)
  {
    AckedWhenAsked(e, x);
    var e1 := Screened(e, x).0;
    assert Grown(e, e1) by { ScreenKeepsEnd(e, x); }
    if Addressed(e, x) { WindowMax(e.window, x.packet.value.counter); }
    hide Screened, Check, Addressed, Grown;
    forall k | 0 <= k < |e1.data|
      ensures Own(e1, e1.data[k])
    {
      OwnGrown(e, e1, e.data[k]);
    }
    forall k | 0 <= k < |e1.acks|
      ensures Own(e1, e1.acks[k])
    {
      if k < |e.acks| {
        assert e1.acks[k] == e1.acks[..|e.acks|][k] == e.acks[k];
        OwnGrown(e, e1, e.acks[k]);
      } else {
        AckIsOwn(e, e1, x.packet.value.counter, e1.acks[k]);
      }
    }
  }

  lemma AckIsOwn(e: End, e1: End, c: uint32, p: Packet)
    requires AckOf(e, c, p) && Grown(e, e1) && e1.counter > e.counter
    ensures Own(e1, p)
  {
  }

  lemma ScreenKeepsEnd(e: End, x: Arrival)
    ensures var e1 := Screened(e, x).0;
            && e1.exchangeId == e.exchangeId && e1.reliable == e.reliable && e1.role.Initiator? == e.role.Initiator?
            && e1.peer == e.peer
  {
    hide Check;
  }

  /** The largest counter taken is the old one or the one just looked at. */
  lemma WindowMax(w: Window, c: uint32)
    ensures var w1 := Check(w, c).0; w1.max == w.max || w1.max == c
    ensures Check(w, c).0.empty ==> w.empty
    ensures w.empty ==> Check(w, c).0.max == c
    ensures w.empty || c > w.max ==> Check(w, c).1
  {
    hide Advanced, Or, Meets, One;
  }

  lemma SendOwn(e: End, protocolId: uint16, opcode: uint8, needsAck: bool, payload: bytes)
    requires AllOwn(e) && e.counter < 0xFFFF_FFFF
    ensures var e1 := SendData(e, protocolId, opcode, needsAck, payload);
            AllOwn(e1) && Grown(e, e1) && e1.window == e.window
  {
    var e1 := SendData(e, protocolId, opcode, needsAck, payload);
    forall k | 0 <= k < |e1.data|
      ensures Own(e1, e1.data[k])
    {
      if k < |e.data| { OwnGrown(e, e1, e.data[k]); }
    }
    forall k | 0 <= k < |e1.acks|
      ensures Own(e1, e1.acks[k])
    {
      OwnGrown(e, e1, e.acks[k]);
    }
  }

  lemma MatchGrown(e: End, o: End, e1: End)
    requires Match(e, o) && Grown(e, e1) && AllOwn(e1) && Behind(e1, o.counter)
    ensures Match(e1, o) && Match(o, e1)
  {
    hide AllOwn;
  }

  lemma PairedSides(w: World, b: bool)
    requires Paired(w)
    ensures Match(Side(w, b), Side(w, !b))
  {
    hide AllOwn;
  }

  lemma PutPaired(w: World, b: bool, e: End)
    requires Match(e, Side(w, !b)) && Match(Side(w, !b), e)
    ensures Paired(Put(w, b, e))
  {
    hide Match;
  }

  lemma DeliverPaired(w: World, b: bool, x: Arrival)
    requires Paired(w) && CountersLeft(w)
    requires Addressed(Side(w, b), x) ==> x.packet.value.counter < Side(w, !b).counter
    ensures Paired(Put(w, b, Screened(Side(w, b), x).0))
  {
    PairedSides(w, b);
    ReceiveOwn(Side(w, b), x, Side(w, !b).counter);
    hide Screened, AllOwn, Grown, Addressed, Behind;
    MatchGrown(Side(w, b), Side(w, !b), Screened(Side(w, b), x).0);
    PutPaired(w, b, Screened(Side(w, b), x).0);
  }

  lemma SendPaired(w: World, b: bool, protocolId: uint16, opcode: uint8, needsAck: bool, payload: bytes)
    requires Paired(w) && CountersLeft(w)
    ensures Paired(Put(w, b, SendData(Side(w, b), protocolId, opcode, needsAck, payload)))
  {
    PairedSides(w, b);
    SendOwn(Side(w, b), protocolId, opcode, needsAck, payload);
    var e1 := SendData(Side(w, b), protocolId, opcode, needsAck, payload);
    hide SendData, AllOwn, Grown;
    MatchGrown(Side(w, b), Side(w, !b), e1);
    PutPaired(w, b, e1);
  }

  lemma ResendPaired(w: World, b: bool, k: nat)
    requires Paired(w) && k < |Side(w, b).data|
    ensures Paired(Put(w, b, Side(w, b).(data := Side(w, b).data + [Side(w, b).data[k]])))
  {
    PairedSides(w, b);
    var e := Side(w, b);
    var e1 := e.(data := e.data + [e.data[k]]);
    assert AllOwn(e1);
    hide AllOwn;
    MatchGrown(e, Side(w, !b), e1);
    PutPaired(w, b, e1);
  }

  lemma DoPaired(w: World, op: Op)
    requires Paired(w) && Possible(w, op) && CountersLeft(w)
    ensures Paired(Do(w, op))
  {
    hide Screened, SendData, Match, Put, Grown, Behind;
    match op
    case SendNew(b, protocolId, opcode, needsAck, payload) => SendPaired(w, b, protocolId, opcode, needsAck, payload);
    case Resend(b, k) => ResendPaired(w, b, k);
    case DeliverData(b, k) =>
      OwnPacket(w, !b, k, false);
      DeliverPaired(w, b, Arrival(Side(w, b).peer, Some(Side(w, !b).data[k])));
    case DeliverAck(b, k) =>
      OwnPacket(w, !b, k, true);
      DeliverPaired(w, b, Arrival(Side(w, b).peer, Some(Side(w, !b).acks[k])));
    case Stray(b, x) => DeliverPaired(w, b, x);
  }

  lemma OwnPacket(w: World, b: bool, k: nat, ack: bool)
    requires Paired(w) && k < if ack then |Side(w, b).acks| else |Side(w, b).data|
    ensures Own(Side(w, b), if ack then Side(w, b).acks[k] else Side(w, b).data[k])
  {
    PairedSides(w, b);
  }

  lemma {:induction false} RunsArePaired(ws: seq<World>, ops: seq<Op>, n: nat)
    requires Running(ws, ops) && Paired(ws[0]) && n <= |ops| && forall k :: 0 <= k < n ==> CountersLeft(ws[k])
    ensures Paired(ws[n])
  {
    hide Paired, Do;
    if n > 0 {
      RunsArePaired(ws, ops, n - 1);
      DoPaired(ws[n - 1], ops[n - 1]);
    }
  }

  /** An exchange as it is opened, by a message with a counter below the initiator's next one. */
  lemma OpeningIsPaired(peerOfA: nat, peerOfB: nat, id: uint16, reliable: bool, src: uint64, ca: uint32,
                        node: Option<uint64>, opener: uint32, cb: uint32)
    requires opener < ca
    ensures Paired(World(Opened(peerOfA, id, reliable, Initiator(src), ca),
                         Opened(peerOfB, id, reliable, Responder(node, opener), cb)))
  {
    hide Advanced, Or, Meets, One;
  }

  /** In every run without a spent counter: a message that asks for it and gets through is acknowledged, even if it
      got through before, and that acknowledgement, if it gets through, is taken and ends the sender's wait. */
  lemma AckComesBack(ws: seq<World>, ops: seq<Op>, n: nat, toB: bool, k: nat)
    requires Running(ws, ops) && Paired(ws[0]) && n <= |ops| && forall j :: 0 <= j <= n ==> CountersLeft(ws[j])
    requires k < |Side(ws[n], !toB).data| && Side(ws[n], !toB).data[k].needsAck
    ensures var c := Side(ws[n], !toB).data[k].counter;
            var w1 := Do(ws[n], DeliverData(toB, k));
            var s, last := Side(w1, !toB), |Side(w1, toB).acks| - 1;
            && last == |Side(ws[n], toB).acks| && Possible(w1, DeliverAck(!toB, last))
            && var ack := Side(w1, toB).acks[last];
               && Screened(s, Arrival(s.peer, Some(ack))).1 == Some(ack)
               && Verdict(Answer, c, ack) == Some(None) && Verdict(Final, c, ack) == Some(None)
  {
    RunsArePaired(ws, ops, n);
    hide Running;
    OwnPacket(ws[n], !toB, k, false);
    PairedSides(ws[n], toB);
    DeliveredIsAcked(Side(ws[n], toB), Side(ws[n], !toB), Side(ws[n], !toB).data[k]);
    hide Screened, Match, Own, Verdict, AckOf;
  }

  lemma DeliveredIsAcked(e: End, s: End, p: Packet)
    requires Match(e, s) && Own(s, p) && p.needsAck
    ensures var e1 := Receive(e, p);
            && |e1.acks| == |e.acks| + 1
            && var ack := e1.acks[|e.acks|];
               && Screened(s, Arrival(s.peer, Some(ack))).1 == Some(ack)
               && Verdict(Answer, p.counter, ack) == Some(None) && Verdict(Final, p.counter, ack) == Some(None)
  {
    AckedWhenAsked(e, Arrival(e.peer, Some(p)));
    var ack := Receive(e, p).acks[|e.acks|];
    AckedWhenAsked(s, Arrival(s.peer, Some(ack)));
    WindowMax(s.window, ack.counter);
    hide Screened, Check, AllOwn;
  }
}
