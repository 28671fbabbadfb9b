/** Reliable messaging on an unsecured exchange (crates/mat-controller/src/exchange.rs), section 4.12 of the
    Matter Core Specification. */
module Exchange {
  import opened Wrappers
  import opened ReplayWindow

  const SECURE_CHANNEL: uint16 := 0
  const STANDALONE_ACK: uint8 := 0x10

  datatype Packet = Packet(
    sessionId: uint16, securityFlags: uint8, counter: uint32, source: Option<uint64>, destination: Option<uint64>,
    initiator: bool, needsAck: bool, acked: Option<uint32>, opcode: uint8, exchangeId: uint16, protocolId: uint16,
    payload: bytes)

  /** A datagram read from the socket: where it came from, and its contents unless they do not decode. */
  datatype Arrival = Arrival(from: nat, packet: Option<Packet>)

  datatype Role = Initiator(sourceNodeId: uint64) | Responder(peerNodeId: Option<uint64>, lastPeerCounter: uint32)

  /** One side of an exchange. `data` and `acks` record what it sent, `heard` the counters of the packets of this
      exchange that reached it. */
  datatype End = End(
    peer: nat, exchangeId: uint16, reliable: bool, role: Role, counter: uint32, window: Window,
    data: seq<Packet>, acks: seq<Packet>, heard: set<uint32>)

  predicate IsStandaloneAck(p: Packet) { p.protocolId == SECURE_CHANNEL && p.opcode == STANDALONE_ACK }

  /** What the next message acknowledges by itself: a responder acknowledges the latest message it took. */
  function PiggybackAck(e: End): Option<uint32> {
    if e.role.Initiator? then None else Some(e.role.lastPeerCounter)
  }

  function BuildPacket(
    e: End, protocolId: uint16, opcode: uint8, needsAck: bool, acked: Option<uint32>, payload: bytes): (End, Packet)
  {
    (e.(counter := (e.counter + 1) % 0x1_0000_0000),
     Packet(0, 0, e.counter, if e.role.Initiator? then Some(e.role.sourceNodeId) else None,
            if e.role.Initiator? then None else e.role.peerNodeId, e.role.Initiator?, needsAck && !e.reliable, acked,
            opcode, e.exchangeId, protocolId, payload))
  }

  function SendAck(e: End, c: uint32): End {
    var (e1, p) := BuildPacket(e, SECURE_CHANNEL, STANDALONE_ACK, false, Some(c), []);
    e1.(acks := e1.acks + [p])
  }

  /** The datagram belongs to this exchange and comes from the other role. */
  predicate Passes(e: End, a: Arrival) {
    && a.from == e.peer && a.packet.Some?
    && a.packet.value.sessionId == 0 && a.packet.value.securityFlags == 0
    && a.packet.value.exchangeId == e.exchangeId && a.packet.value.initiator != e.role.Initiator?
  }

  /** Screening: foreign traffic is skipped, duplicates are acknowledged again, fresh messages are returned. */
  function Screened(e: End, a: Arrival): (End, Option<Packet>) {
    if !Passes(e, a) then (e, None)
    else
      var p := a.packet.value;
      var (w, ok) := Check(e.window, p.counter);
      var e1 := e.(window := w, heard := e.heard + {p.counter},
                   role := if ok && e.role.Responder? then e.role.(lastPeerCounter := p.counter) else e.role);
      (if p.needsAck && !e.reliable then SendAck(e1, p.counter) else e1, if ok then Some(p) else None)
  }

  /** What a wait is for: an answer or the acknowledgement, the acknowledgement alone, or an answer alone. */
  datatype Kind = Answer | Final | Reply

  /** Whether a screened message ends the wait for the message with counter `c`, and with what. */
  function Verdict(kind: Kind, c: uint32, p: Packet): Option<Option<Packet>> {
    match kind
    case Answer =>
      if IsStandaloneAck(p) then (if p.acked == Some(c) then Some(None) else None) else Some(Some(p))
    case Final => if p.acked == Some(c) then Some(None) else None
    case Reply => if IsStandaloneAck(p) then None else Some(Some(p))
  }

  /** One wait: what arrives is screened until a message ends it. */
  function Awaited(e: End, arrivals: seq<Arrival>, kind: Kind, c: uint32): (End, Option<Option<Packet>>)
    decreases |arrivals|
  {
    if arrivals == [] then (e, None)
    else
      var (e1, m) := Screened(e, arrivals[0]);
      if m.Some? && Verdict(kind, c, m.value).Some? then (e1, Verdict(kind, c, m.value))
      else Awaited(e1, arrivals[1..], kind, c)
  }

  /** A packet is sent and a wait follows, and again after each wait that does not end, `left` more times. */
  function Sending(e: End, p: Packet, kind: Kind, left: nat, arrivals: nat -> seq<Arrival>, k: nat)
    : (End, Option<Option<Packet>>)
    decreases left
  {
    var (e1, r) := Awaited(e.(data := e.data + [p]), arrivals(k), kind, p.counter);
    if r.Some? || left == 0 then (e1, r) else Sending(e1, p, kind, left - 1, arrivals, k + 1)
  }

  // ---------------------------------------------------------------- the schedule

  datatype MrpConfig = MrpConfig(
    initialInterval: real, activeInterval: real, maxRetries: nat, backoff: real, jitter: real)

  const PEER_ACTIVE_WINDOW := 4000.0

  predicate Sane(cfg: MrpConfig) {
    cfg.initialInterval >= 0.0 && cfg.activeInterval >= 0.0 && cfg.backoff >= 0.0 && cfg.jitter >= 0.0
  }

  /** A duration times a factor, without rounding. */
  function Scaled(d: real, k: real): real { d * k }

  function JitteredInterval(interval: real, jitter: real, r: real): real { Scaled(interval, 1.0 + Scaled(jitter, r)) }

  /** The first interval, by how long ago the peer was heard. */
  function RetransBase(sinceRx: Option<real>, cfg: MrpConfig): real {
    if sinceRx.Some? && sinceRx.value < PEER_ACTIVE_WINDOW then cfg.activeInterval else cfg.initialInterval
  }

  /** The interval of the `k`-th wait, before jitter. */
  function BackedOff(base: real, cfg: MrpConfig, k: nat): real {
    if k == 0 then base else Scaled(BackedOff(base, cfg, k - 1), cfg.backoff)
  }

  /** The longest `n` waits can take when they start at `interval`. */
  function Longest(interval: real, n: nat, cfg: MrpConfig): real
    decreases n
  {
    if n == 0 then 0.0 else Scaled(interval, 1.0 + cfg.jitter) + Longest(Scaled(interval, cfg.backoff), n - 1, cfg)
  }

  /** The longest all waits can take when the first one is the initial interval. */
  function Budget(cfg: MrpConfig): real { Longest(cfg.initialInterval, cfg.maxRetries + 1, cfg) }

  method TotalBudget(cfg: MrpConfig) returns (total: real)
    ensures total == Budget(cfg)
  {
    hide Scaled;
    total := 0.0;
    var interval := cfg.initialInterval;
    for k := 0 to cfg.maxRetries + 1
      invariant total + Longest(interval, cfg.maxRetries + 1 - k, cfg)
             == Longest(cfg.initialInterval, cfg.maxRetries + 1, cfg)
    {
      LongestStep(interval, cfg.maxRetries + 1 - k, cfg);
      total := total + Scaled(interval, 1.0 + cfg.jitter);
      interval := Scaled(interval, cfg.backoff);
    }
  }

  lemma ScaleOrder(a: real, b: real, k: real)
    requires k >= 0.0 && a <= b
    ensures Scaled(a, k) <= Scaled(b, k)
  {
  }

  lemma ScaleStrict(a: real, b: real, k: real)
    requires k > 0.0 && a < b
    ensures Scaled(a, k) < Scaled(b, k)
  {
  }

  lemma FactorOrder(d: real, j: real, k: real)
    requires d >= 0.0 && j <= k
    ensures Scaled(d, j) <= Scaled(d, k)
  {
  }

  lemma ScaledZero(d: real)
    ensures Scaled(d, 0.0) == 0.0 && Scaled(0.0, d) == 0.0 && Scaled(d, 1.0) == d
  {
  }

  lemma LongestStep(interval: real, n: nat, cfg: MrpConfig)
    requires n > 0
    ensures Longest(interval, n, cfg)
            == Scaled(interval, 1.0 + cfg.jitter) + Longest(Scaled(interval, cfg.backoff), n - 1, cfg)
  {
    hide Scaled;
  }

  lemma {:induction false} LongestOrder(a: real, b: real, n: nat, cfg: MrpConfig)
    requires Sane(cfg) && a <= b
    ensures Longest(a, n, cfg) <= Longest(b, n, cfg)
    decreases n
  {
    hide Scaled;
    if n > 0 {
      ScaleOrder(a, b, 1.0 + cfg.jitter);
      ScaleOrder(a, b, cfg.backoff);
      LongestOrder(Scaled(a, cfg.backoff), Scaled(b, cfg.backoff), n - 1, cfg);
    }
  }

  /** One wait is at most its interval with full jitter. */
  lemma WaitBound(interval: real, cfg: MrpConfig, r: real)
    requires interval >= 0.0 && cfg.jitter >= 0.0 && 0.0 <= r < 1.0
    ensures 0.0 <= JitteredInterval(interval, cfg.jitter, r) <= Scaled(interval, 1.0 + cfg.jitter)
  {
    hide Scaled;
    FactorOrder(cfg.jitter, r, 1.0);
    FactorOrder(cfg.jitter, 0.0, r);
    ScaledZero(cfg.jitter);
    FactorOrder(interval, 1.0 + Scaled(cfg.jitter, r), 1.0 + cfg.jitter);
    FactorOrder(interval, 0.0, 1.0 + Scaled(cfg.jitter, r));
    ScaledZero(interval);
  }

  lemma ScaledPositive(d: real, k: real)
    requires d >= 0.0 && k >= 0.0
    ensures Scaled(d, k) >= 0.0
  {
  }

  /** What `n` waits take that start at `interval`, with the random numbers from the `k`-th on. */
  function Spent(interval: real, n: nat, cfg: MrpConfig, random: nat -> real, k: nat): real
    decreases n
  {
    if n == 0 then 0.0
    else
      JitteredInterval(interval, cfg.jitter, random(k)) + Spent(Scaled(interval, cfg.backoff), n - 1, cfg, random, k + 1)
  }

  ghost predicate Fair(random: nat -> real) { forall k: nat :: 0.0 <= random(k) < 1.0 }

  lemma SpentStep(interval: real, n: nat, cfg: MrpConfig, random: nat -> real, k: nat)
    requires n > 0
    ensures Spent(interval, n, cfg, random, k)
            == JitteredInterval(interval, cfg.jitter, random(k))
               + Spent(Scaled(interval, cfg.backoff), n - 1, cfg, random, k + 1)
  {
    hide Scaled, JitteredInterval;
  }

  lemma {:induction false} SpentBound(interval: real, n: nat, cfg: MrpConfig, random: nat -> real, k: nat)
    requires Sane(cfg) && interval >= 0.0 && Fair(random)
    ensures 0.0 <= Spent(interval, n, cfg, random, k) <= Longest(interval, n, cfg)
    decreases n
  {
    hide Scaled, JitteredInterval;
    if n > 0 {
      WaitBound(interval, cfg, random(k));
      ScaledPositive(interval, cfg.backoff);
      SpentBound(Scaled(interval, cfg.backoff), n - 1, cfg, random, k + 1);
    }
  }

  /** The same random number every time is a smaller jitter. */
  lemma {:induction false} SpentEvenly(interval: real, n: nat, cfg: MrpConfig, r: real, k: nat)
    ensures Spent(interval, n, cfg, _ => r, k) == Longest(interval, n, cfg.(jitter := Scaled(cfg.jitter, r)))
    decreases n
  {
    hide Scaled;
    if n > 0 { SpentEvenly(Scaled(interval, cfg.backoff), n - 1, cfg, r, k + 1); }
  }

  lemma ScaledSwap(d: real, j: real, k: real)
    ensures Scaled(Scaled(d, j), k) == Scaled(Scaled(d, k), j)
  {
  }

  /** A schedule whose first wait is as long as that of another one with the same backoff is as long throughout. */
  lemma {:induction false} LongestCompares(b: real, small: MrpConfig, i: real, cfg: MrpConfig, n: nat)
    requires Sane(cfg) && small.backoff == cfg.backoff
    requires Scaled(b, 1.0 + small.jitter) >= Scaled(i, 1.0 + cfg.jitter)
    ensures Longest(b, n, small) >= Longest(i, n, cfg)
    decreases n
  {
    hide Scaled;
    if n > 0 {
      ScaledSwap(b, cfg.backoff, 1.0 + small.jitter);
      ScaledSwap(i, cfg.backoff, 1.0 + cfg.jitter);
      ScaleOrder(Scaled(i, 1.0 + cfg.jitter), Scaled(b, 1.0 + small.jitter), cfg.backoff);
      LongestCompares(Scaled(b, cfg.backoff), small, Scaled(i, cfg.backoff), cfg, n - 1);
    }
  }

  /** Close enough to full jitter, a longer interval makes a longer wait than a shorter one with full jitter. */
  lemma LateEnough(b: real, i: real, jitter: real) returns (r: real)
    requires b > i >= 0.0 && jitter >= 0.0
    ensures 0.0 <= r < 1.0 && Scaled(b, 1.0 + Scaled(jitter, r)) > Scaled(i, 1.0 + jitter)
  {
    var d, m := Scaled(b - i, 1.0 + jitter), Scaled(b, jitter);
    ScaledPositive(b, jitter);
    ScaleStrict(0.0, b - i, 1.0 + jitter);
    ScaledZero(1.0 + jitter);
    var e := SmallPart(m, d);
    r := 1.0 - e;
    AlmostFull(b, i, jitter, e);
  }

  lemma SmallPart(m: real, d: real) returns (e: real)
    requires m >= 0.0 && d > 0.0
    ensures 0.0 < e < 1.0 && Scaled(m, e) < d
  {
    e := d / (m + 1.0 + d);
    assert e * (m + 1.0 + d) == d;
    assert e * m + e + e * d == d;
  }

  lemma AlmostFull(b: real, i: real, jitter: real, e: real)
    requires Scaled(Scaled(b, jitter), e) < Scaled(b - i, 1.0 + jitter)
    ensures Scaled(b, 1.0 + Scaled(jitter, 1.0 - e)) > Scaled(i, 1.0 + jitter)
  {
    hide Scaled;
    LessJitter(b, jitter, e);
    Difference(b, i, 1.0 + jitter);
  }

  lemma LessJitter(b: real, jitter: real, e: real)
    ensures Scaled(b, 1.0 + Scaled(jitter, 1.0 - e)) == Scaled(b, 1.0 + jitter) - Scaled(Scaled(b, jitter), e)
  {
    assert jitter * (1.0 - e) == jitter - jitter * e;
    assert b * (1.0 + (jitter - jitter * e)) == b * (1.0 + jitter) - b * (jitter * e);
    assert b * (jitter * e) == (b * jitter) * e;
  }

  lemma Difference(b: real, i: real, k: real)
    ensures Scaled(b - i, k) == Scaled(b, k) - Scaled(i, k)
  {
  }

  /** A longer base interval can exceed the budget: some random numbers make the actual waits do so. */
  lemma BudgetExceeded(base: real, cfg: MrpConfig) returns (r: real)
    requires Sane(cfg) && base > cfg.initialInterval
    ensures Fair(_ => r) && Spent(base, cfg.maxRetries + 1, cfg, _ => r, 0) > Budget(cfg)
  {
    var i := cfg.initialInterval;
    r := LateEnough(base, i, cfg.jitter);
    hide Scaled;
    var n := cfg.maxRetries + 1;
    var small := cfg.(jitter := Scaled(cfg.jitter, r));
    SpentEvenly(base, n, cfg, r, 0);
    LongestStep(base, n, small);
    LongestStep(i, n, cfg);
    ScaledSwap(base, cfg.backoff, 1.0 + small.jitter);
    ScaledSwap(i, cfg.backoff, 1.0 + cfg.jitter);
    ScaleOrder(Scaled(i, 1.0 + cfg.jitter), Scaled(base, 1.0 + small.jitter), cfg.backoff);
    LongestCompares(Scaled(base, cfg.backoff), small, Scaled(i, cfg.backoff), cfg, cfg.maxRetries);
    hide Longest, Spent;
  }

  /** The waits that start at `base` stay within the budget for all random numbers exactly if `base` is at most the
      initial interval. */
  lemma BudgetCovers(base: real, cfg: MrpConfig)
    requires Sane(cfg) && base >= 0.0
    ensures (forall random: nat -> real :: Fair(random) ==> Spent(base, cfg.maxRetries + 1, cfg, random, 0) <= Budget(cfg))
            <==> base <= cfg.initialInterval
  {
    hide Scaled, Longest, Spent;
    if base <= cfg.initialInterval {
      forall random: nat -> real | Fair(random)
        ensures Spent(base, cfg.maxRetries + 1, cfg, random, 0) <= Budget(cfg)
      {
        SpentBound(base, cfg.maxRetries + 1, cfg, random, 0);
        LongestOrder(base, cfg.initialInterval, cfg.maxRetries + 1, cfg);
      }
    } else {
      var r := BudgetExceeded(base, cfg);
    }
  }

  function Sum(s: seq<real>): real { if s == [] then 0.0 else Sum(s[..|s| - 1]) + s[|s| - 1] }

  lemma SumSnoc(s: seq<real>, x: real)
    ensures Sum(s + [x]) == Sum(s) + x
  {
    assert (s + [x])[..|s|] == s;
  }

  function Repeat(p: Packet, n: nat): seq<Packet> { seq(n, _ => p) }

  // ---------------------------------------------------------------- the exchange

  class ExchangeCore {
    const peer: nat
    const exchangeId: uint16
    const reliable: bool
    var role: Role
    var counter: uint32
    var window: Window
    ghost var data: seq<Packet>
    ghost var acks: seq<Packet>
    ghost var heard: set<uint32>

    constructor (peer: nat, exchangeId: uint16, reliable: bool, role: Role, counter: uint32)
      ensures State() == Opened(peer, exchangeId, reliable, role, counter)
    {
      this.peer, this.exchangeId, this.reliable := peer, exchangeId, reliable;
      this.role, this.counter := role, counter;
      window := if role.Responder? then Check(Window(0, 0, true), role.lastPeerCounter).0 else Window(0, 0, true);
      data, acks, heard := [], [], if role.Responder? then {role.lastPeerCounter} else {};
    }

    ghost function State(): End
      reads this
    {
      End(peer, exchangeId, reliable, role, counter, window, data, acks, heard)
    }

    method Build(protocolId: uint16, opcode: uint8, needsAck: bool, acked: Option<uint32>, payload: bytes)
      returns (p: Packet)
      modifies this
      ensures (State(), p) == BuildPacket(old(State()), protocolId, opcode, needsAck, acked, payload)
    {
      var source, destination, initiator;
      match role {
        case Initiator(id) => source, destination, initiator := Some(id), None, true;
        case Responder(id, _) => source, destination, initiator := None, id, false;
      }
      p := Packet(0, 0, counter, source, destination, initiator, needsAck && !reliable, acked, opcode, exchangeId,
                  protocolId, payload);
      counter := (counter + 1) % 0x1_0000_0000;
    }

    method SendTo(p: Packet)
      modifies this`data
      ensures State() == old(State()).(data := old(data) + [p])
    {
      data := data + [p];
    }

    method SendStandaloneAck(c: uint32)
      modifies this
      ensures State() == SendAck(old(State()), c)
    {
      var p := Build(SECURE_CHANNEL, STANDALONE_ACK, false, Some(c), []);
      acks := acks + [p];
    }

    method Screen(a: Arrival) returns (r: Option<Packet>)
      modifies this
      ensures (State(), r) == Screened(old(State()), a)
    {
      hide Check;
      if a.from != peer || a.packet.None? { return None; }
      var p := a.packet.value;
      if p.sessionId != 0 || p.securityFlags != 0 { return None; }
      if p.exchangeId != exchangeId || p.initiator == role.Initiator? { return None; }
      heard := heard + {p.counter};
      var (w, ok) := Check(window, p.counter);
      window := w;
      if !ok {
        if p.needsAck && !reliable { SendStandaloneAck(p.counter); }
        return None;
      }
      if role.Responder? { role := role.(lastPeerCounter := p.counter); }
      if p.needsAck && !reliable { SendStandaloneAck(p.counter); }
      return Some(p);
    }

    /** Waits out one interval, screening what arrives; `Some` when one of the messages ends the wait. */
    method AwaitVerdict(arrivals: seq<Arrival>, kind: Kind, c: uint32)
      returns (r: Option<Option<Packet>>, ghost ender: Option<Arrival>)
      modifies this
      ensures (State(), r) == Awaited(old(State()), arrivals, kind, c)
      ensures data == old(data) && old(heard) <= heard
      ensures old(Honest(State())) ==> Honest(State())
      ensures r.Some? ==> ender.Some? && ender.value in arrivals && ender.value.from == peer && ender.value.packet.Some?
                          && Verdict(kind, c, ender.value.packet.value) == r
    {
      hide Screened, Verdict, Honest;
      assert arrivals[0..] == arrivals;
      for k := 0 to |arrivals|
        invariant Awaited(State(), arrivals[k..], kind, c) == Awaited(old(State()), arrivals, kind, c)
        invariant data == old(data) && old(heard) <= heard && (old(Honest(State())) ==> Honest(State()))
      {
        if Honest(State()) { ScreenKeepsHonest(State(), arrivals[k]); }
        ScreenKeepsData(State(), arrivals[k]);
        AwaitStep(State(), arrivals, k, kind, c);
        ScreenReturns(State(), arrivals[k]);
        var msg := Screen(arrivals[k]);
        if msg.Some? {
          var v := Verdict(kind, c, msg.value);
          if v.Some? { return v, Some(arrivals[k]); }
        }
      }
      return None, None;
    }

    /** Sends a packet and repeats it after every wait that stays without a verdict. */
    method MrpSendLoop(
      p: Packet, cfg: MrpConfig, kind: Kind, sinceRx: Option<real>, arrivals: nat -> seq<Arrival>, random: nat -> real)
      returns (r: Option<Option<Packet>>, ghost waits: seq<real>, ghost ender: Option<Arrival>)
      requires Sane(cfg) && Fair(random)
      requires AckHeard(p, heard) || !Honest(State())
      modifies this
      ensures (State(), r) == Sending(old(State()), p, kind, cfg.maxRetries, arrivals, 0)
      ensures forall k :: 0 <= k < |waits| ==>
                var base := if sinceRx.Some? && sinceRx.value < 4000.0 then cfg.activeInterval else cfg.initialInterval;
                waits[k] == JitteredInterval(BackedOff(base, cfg, k), cfg.jitter, random(k))
      ensures 1 <= |waits| <= cfg.maxRetries + 1 && data == old(data) + Repeat(p, |waits|)
      ensures Sum(waits) <= Spent(RetransBase(sinceRx, cfg), cfg.maxRetries + 1, cfg, random, 0)
      ensures cfg.activeInterval <= cfg.initialInterval ==> Sum(waits) <= Budget(cfg)
      ensures r.None? ==> |waits| == cfg.maxRetries + 1
                          && Sum(waits) == Spent(RetransBase(sinceRx, cfg), cfg.maxRetries + 1, cfg, random, 0)
      ensures old(Honest(State())) ==> Honest(State())
      ensures r.Some? ==>
                && ender.Some? && ender.value.from == peer && ender.value.packet.Some?
                && (exists k: nat :: k <= cfg.maxRetries && ender.value in arrivals(k))
                && Verdict(kind, p.counter, ender.value.packet.value) == r
    {
      hide Longest, Spent, JitteredInterval, Sum, Scaled, Honest, Awaited, BackedOff, OnSchedule, Verdict;
      var interval := RetransBase(sinceRx, cfg);
      ghost var base := interval;
      BudgetCovers(base, cfg);
      var attempts: nat := 0;
      waits, ender := [], None;
      ScheduleStarts(base, cfg, random);
      while true
        invariant attempts == |waits| <= cfg.maxRetries && interval == BackedOff(base, cfg, attempts)
        invariant data == old(data) + Repeat(p, |waits|)
        invariant OnSchedule(waits, base, cfg, random)
        invariant Sending(State(), p, kind, cfg.maxRetries - attempts, arrivals, attempts)
               == Sending(old(State()), p, kind, cfg.maxRetries, arrivals, 0)
        invariant old(heard) <= heard && (old(Honest(State())) ==> Honest(State()) && AckHeard(p, heard))
        decreases cfg.maxRetries - attempts
      {
        if old(Honest(State())) { SendHonest(State(), p); }
        SendTo(p);
        ScheduleSnoc(waits, base, cfg, random);
        waits := waits + [JitteredInterval(interval, cfg.jitter, random(attempts))];
        ScheduleSums(waits, base, cfg, random);
        r, ender := AwaitVerdict(arrivals(attempts), kind, p.counter);
        if r.Some? { return; }
        attempts := attempts + 1;
        if attempts > cfg.maxRetries { return; }
        BackOffStep(base, cfg, attempts);
        interval := Scaled(interval, cfg.backoff);
      }
    }

    /** Sends a message until it is answered or acknowledged; `Some(None)` is a bare acknowledgement. Over a
        reliable transport it is sent once and an answer is awaited. If what arrives from the peer's address is what
        an honest other side `other` wrote, a bare acknowledgement means that it has heard this very message. */
    method SendReliable(
      protocolId: uint16, opcode: uint8, payload: bytes, cfg: MrpConfig, sinceRx: Option<real>,
      arrivals: nat -> seq<Arrival>, random: nat -> real, ghost other: End)
      returns (r: Option<Option<Packet>>, ghost sends: nat, ghost ender: Option<Arrival>)
      requires Sane(cfg) && Fair(random)
      modifies this
      ensures var (e, p) := BuildPacket(old(State()), protocolId, opcode, true, PiggybackAck(old(State())), payload);
              && data == old(data) + Repeat(p, sends) && 1 <= sends <= cfg.maxRetries + 1
              && (State(), r) == if reliable then Awaited(e.(data := e.data + [p]), arrivals(0), Reply, p.counter)
                                 else Sending(e, p, Answer, cfg.maxRetries, arrivals, 0)
      ensures reliable ==> sends == 1
      ensures old(Honest(State())) ==> Honest(State())
      ensures r == Some(None) ==>
                && !reliable && ender.Some? && ender.value.from == peer && ender.value.packet.Some?
                && ender.value.packet.value.acked == Some(old(counter)) && IsStandaloneAck(ender.value.packet.value)
      ensures r == Some(None) && Honest(other) && OnlyFrom(other, peer, arrivals, cfg.maxRetries) ==>
                old(counter) in other.heard
    {
      hide Longest, Sum, Awaited, Sending, BackedOff, JitteredInterval, Screened, OnlyFrom, Spent;
      var ack := if role.Initiator? then None else Some(role.lastPeerCounter);
      ghost var honest := Honest(State());
      if honest { BuildHonest(State(), protocolId, opcode, true, ack, payload); }
      var p := Build(protocolId, opcode, !reliable, ack, payload);
      if reliable {
        if honest { SendHonest(State(), p); }
        SendTo(p);
        sends := 1;
        assert Repeat(p, 1) == [p];
        r, ender := AwaitVerdict(arrivals(0), Reply, p.counter);
        return;
      }
      ghost var waits;
      r, waits, ender := MrpSendLoop(p, cfg, Answer, sinceRx, arrivals, random);
      sends := |waits|;
      if r == Some(None) && Honest(other) && OnlyFrom(other, peer, arrivals, cfg.maxRetries) {
        AckWasHeard(other, ender.value, peer, arrivals, cfg.maxRetries, p.counter);
      }
    }

    /** Sends a last message until it is acknowledged; over a reliable transport once. Over an unreliable one success
        means the same as above. */
    method SendFinal(
      protocolId: uint16, opcode: uint8, payload: bytes, cfg: MrpConfig, sinceRx: Option<real>,
      arrivals: nat -> seq<Arrival>, random: nat -> real, ghost other: End)
      returns (ok: bool, ghost sends: nat, ghost ender: Option<Arrival>)
      requires Sane(cfg) && Fair(random)
      modifies this
      ensures var (e, p) := BuildPacket(old(State()), protocolId, opcode, true, PiggybackAck(old(State())), payload);
              && data == old(data) + Repeat(p, sends) && 1 <= sends <= cfg.maxRetries + 1
              && (State(), ok) == if reliable then (e.(data := e.data + [p]), true)
                                  else var (e1, r) := Sending(e, p, Final, cfg.maxRetries, arrivals, 0); (e1, r.Some?)
      ensures reliable ==> ok && sends == 1
      ensures old(Honest(State())) ==> Honest(State())
      ensures ok && !reliable ==>
                && ender.Some? && ender.value.from == peer && ender.value.packet.Some?
                && ender.value.packet.value.acked == Some(old(counter))
      ensures ok && !reliable && Honest(other) && OnlyFrom(other, peer, arrivals, cfg.maxRetries) ==>
                old(counter) in other.heard
    {
      hide Longest, Sum, Awaited, Sending, BackedOff, JitteredInterval, Screened, OnlyFrom, Spent;
      var ack := if role.Initiator? then None else Some(role.lastPeerCounter);
      ghost var honest := Honest(State());
      if honest { BuildHonest(State(), protocolId, opcode, true, ack, payload); }
      var p := Build(protocolId, opcode, !reliable, ack, payload);
      if reliable {
        if honest { SendHonest(State(), p); }
        SendTo(p);
        sends := 1;
        assert Repeat(p, 1) == [p];
        return true, sends, None;
      }
      var r;
      ghost var waits;
      r, waits, ender := MrpSendLoop(p, cfg, Final, sinceRx, arrivals, random);
      sends := |waits|;
      ok := r.Some?;
      if ok && Honest(other) && OnlyFrom(other, peer, arrivals, cfg.maxRetries) {
        AckWasHeard(other, ender.value, peer, arrivals, cfg.maxRetries, p.counter);
      }
    }
  }

  predicate Wrote(e: End, p: Packet) { p in e.data || p in e.acks }

  /** During the first `n` + 1 waits nothing arrives from the address `peer` but packets of the side `other`. */
  ghost predicate OnlyFrom(other: End, peer: nat, arrivals: nat -> seq<Arrival>, n: nat) {
    forall k: nat, x :: k <= n && x in arrivals(k) && x.from == peer && x.packet.Some? ==> Wrote(other, x.packet.value)
  }

  /** An honest side acknowledges only what it has heard. */
  lemma AckWasHeard(other: End, x: Arrival, peer: nat, arrivals: nat -> seq<Arrival>, n: nat, c: uint32)
    requires Honest(other) && OnlyFrom(other, peer, arrivals, n)
    requires x.from == peer && x.packet.Some? && x.packet.value.acked == Some(c)
    requires exists k: nat :: k <= n && x in arrivals(k)
    ensures c in other.heard
  {
    assert Wrote(other, x.packet.value);
    WrittenAckWasHeard(other, x.packet.value, c);
  }

  lemma WrittenAckWasHeard(other: End, p: Packet, c: uint32)
    requires Honest(other) && Wrote(other, p) && p.acked == Some(c)
    ensures c in other.heard
  {
    assert AckHeard(p, other.heard);
  }

  lemma BuildHonest(e: End, protocolId: uint16, opcode: uint8, needsAck: bool, acked: Option<uint32>, payload: bytes)
    requires Honest(e)
    ensures Honest(BuildPacket(e, protocolId, opcode, needsAck, acked, payload).0)
  {
  }

  lemma SendHonest(e: End, p: Packet)
    requires Honest(e) && AckHeard(p, e.heard)
    ensures Honest(e.(data := e.data + [p]))
  {
  }

  lemma AwaitStep(e: End, arrivals: seq<Arrival>, k: nat, kind: Kind, c: uint32)
    requires k < |arrivals|
    ensures Awaited(e, arrivals[k..], kind, c)
            == var (e1, m) := Screened(e, arrivals[k]);
               if m.Some? && Verdict(kind, c, m.value).Some? then (e1, Verdict(kind, c, m.value))
               else Awaited(e1, arrivals[k + 1..], kind, c)
  {
    hide Screened, Verdict;
    assert arrivals[k..][1..] == arrivals[k + 1..];
  }

  /** The waits so far are those of the schedule, and those to come take what is left of it. */
  ghost predicate OnSchedule(waits: seq<real>, base: real, cfg: MrpConfig, random: nat -> real) {
    && |waits| <= cfg.maxRetries + 1
    && (forall k :: 0 <= k < |waits| ==> waits[k] == JitteredInterval(BackedOff(base, cfg, k), cfg.jitter, random(k)))
    && BackedOff(base, cfg, |waits|) >= 0.0
    && Sum(waits) + Spent(BackedOff(base, cfg, |waits|), cfg.maxRetries + 1 - |waits|, cfg, random, |waits|)
       == Spent(base, cfg.maxRetries + 1, cfg, random, 0)
  }

  lemma ScheduleStarts(base: real, cfg: MrpConfig, random: nat -> real)
    requires base >= 0.0
    ensures OnSchedule([], base, cfg, random) && BackedOff(base, cfg, 0) == base
  {
    SumNone();
  }

  lemma BackOffStep(base: real, cfg: MrpConfig, k: nat)
    requires k > 0
    ensures BackedOff(base, cfg, k) == Scaled(BackedOff(base, cfg, k - 1), cfg.backoff)
  {
    hide Scaled;
  }

  lemma ScheduleSnoc(waits: seq<real>, base: real, cfg: MrpConfig, random: nat -> real)
    requires Sane(cfg) && OnSchedule(waits, base, cfg, random) && |waits| <= cfg.maxRetries
    ensures OnSchedule(
              waits + [JitteredInterval(BackedOff(base, cfg, |waits|), cfg.jitter, random(|waits|))], base, cfg, random)
  {
    hide Scaled, JitteredInterval, Spent, Sum, BackedOff;
    var k := |waits|;
    var interval := BackedOff(base, cfg, k);
    SpentStep(interval, cfg.maxRetries + 1 - k, cfg, random, k);
    BackOffStep(base, cfg, k + 1);
    ScaledPositive(interval, cfg.backoff);
    SumSnoc(waits, JitteredInterval(interval, cfg.jitter, random(k)));
  }

  /** The waits so far take at most what all of them take, and exactly that when there are no more. */
  lemma ScheduleSums(waits: seq<real>, base: real, cfg: MrpConfig, random: nat -> real)
    requires Sane(cfg) && Fair(random) && OnSchedule(waits, base, cfg, random)
    ensures Sum(waits) <= Spent(base, cfg.maxRetries + 1, cfg, random, 0)
    ensures |waits| == cfg.maxRetries + 1 ==> Sum(waits) == Spent(base, cfg.maxRetries + 1, cfg, random, 0)
    ensures forall k :: 0 <= k < |waits| ==> waits[k] == JitteredInterval(BackedOff(base, cfg, k), cfg.jitter, random(k))
  {
    hide Scaled, JitteredInterval, Spent, Sum, BackedOff, Longest;
    var k := |waits|;
    SpentBound(BackedOff(base, cfg, k), cfg.maxRetries + 1 - k, cfg, random, k);
    NothingSpent(BackedOff(base, cfg, k), cfg, random, k);
  }

  lemma NothingSpent(interval: real, cfg: MrpConfig, random: nat -> real, k: nat)
    ensures Spent(interval, 0, cfg, random, k) == 0.0
  {
  }

  lemma SumNone()
    ensures Sum([]) == 0.0
  {
  }

  // ---------------------------------------------------------------- acknowledgements are honest

  /** A side as it is opened; a responder has heard the message that opened it. */
  function Opened(peer: nat, exchangeId: uint16, reliable: bool, role: Role, counter: uint32): End {
    End(peer, exchangeId, reliable, role, counter,
        if role.Responder? then Check(Window(0, 0, true), role.lastPeerCounter).0 else Window(0, 0, true),
        [], [], if role.Responder? then {role.lastPeerCounter} else {})
  }

  predicate AckHeard(p: Packet, heard: set<uint32>) { p.acked.Some? ==> p.acked.value in heard }

  /** Everything the side sent acknowledges only what it heard, and so will its next message. */
  ghost predicate Honest(e: End) {
    && (forall k :: 0 <= k < |e.data| ==> AckHeard(e.data[k], e.heard))
    && (forall k :: 0 <= k < |e.acks| ==> AckHeard(e.acks[k], e.heard))
    && (e.role.Responder? ==> e.role.lastPeerCounter in e.heard)
  }

  lemma ScreenKeepsData(e: End, a: Arrival)
    ensures Screened(e, a).0.data == e.data && e.heard <= Screened(e, a).0.heard
  {
    hide Check;
  }

  /** What screening returns is what arrived, from the peer. */
  lemma ScreenReturns(e: End, a: Arrival)
    ensures Screened(e, a).1.Some? ==> a.from == e.peer && a.packet == Screened(e, a).1
    ensures Screened(e, a).0.peer == e.peer
  {
    hide Check;
  }

  lemma ScreenKeepsHonest(e: End, a: Arrival)
    requires Honest(e)
    ensures Honest(Screened(e, a).0)
  {
    hide Check;
  }

  // ---------------------------------------------------------------- two sides and a network

  /** Two sides of one exchange. The network may lose, repeat and reorder: any packet ever sent may arrive any
      number of times, or never; and packets from elsewhere may arrive too. */
  datatype World = World(a: End, b: End)

  datatype Op =
    | SendNew(atB: bool, protocolId: uint16, opcode: uint8, needsAck: bool, payload: bytes)
    | Resend(atB: bool, k: nat)
    | DeliverData(toB: bool, k: nat)
    | DeliverAck(toB: bool, k: nat)
    | Stray(toB: bool, x: Arrival)

  function Side(w: World, b: bool): End { if b then w.b else w.a }

  function Put(w: World, b: bool, e: End): World { if b then w.(b := e) else w.(a := e) }

  /** The operation can happen: what is sent again or delivered was sent, and strays come from elsewhere. */
  predicate Possible(w: World, op: Op) {
    match op
    case SendNew(_, _, _, _, _) => true
    case Resend(b, k) => k < |Side(w, b).data|
    case DeliverData(b, k) => k < |Side(w, !b).data|
    case DeliverAck(b, k) => k < |Side(w, !b).acks|
    case Stray(b, x) => x.from != Side(w, b).peer
  }

  function SendData(e: End, protocolId: uint16, opcode: uint8, needsAck: bool, payload: bytes): End {
    var (e1, p) := BuildPacket(e, protocolId, opcode, needsAck, PiggybackAck(e), payload);
    e1.(data := e1.data + [p])
  }

  function Receive(e: End, p: Packet): End { Screened(e, Arrival(e.peer, Some(p))).0 }

  function Do(w: World, op: Op): World
    requires Possible(w, op)
  {
    match op
    case SendNew(b, protocolId, opcode, needsAck, payload) =>
      Put(w, b, SendData(Side(w, b), protocolId, opcode, needsAck, payload))
    case Resend(b, k) => Put(w, b, Side(w, b).(data := Side(w, b).data + [Side(w, b).data[k]]))
    case DeliverData(b, k) => Put(w, b, Receive(Side(w, b), Side(w, !b).data[k]))
    case DeliverAck(b, k) => Put(w, b, Receive(Side(w, b), Side(w, !b).acks[k]))
    case Stray(b, x) => Put(w, b, Screened(Side(w, b), x).0)
  }

  predicate Sent(e: End, c: uint32) {
    (exists k :: 0 <= k < |e.data| && e.data[k].counter == c)
    || (exists k :: 0 <= k < |e.acks| && e.acks[k].counter == c)
  }

  /** Both sides are honest, and each heard only what the other sent, but for the counter it was opened with. */
  ghost predicate Faithful(w: World, first: set<uint32>) {
    && Honest(w.a) && Honest(w.b)
    && (forall c :: c in w.a.heard ==> Sent(w.b, c))
    && (forall c :: c in w.b.heard ==> c in first || Sent(w.a, c))
  }

  lemma SentGrows(e: End, e': End)
    requires |e.data| <= |e'.data| && |e.acks| <= |e'.acks|
    requires e'.data[..|e.data|] == e.data && e'.acks[..|e.acks|] == e.acks
    ensures forall c: uint32 :: Sent(e, c) ==> Sent(e', c)
  {
    assert forall k :: 0 <= k < |e.data| ==> e'.data[k] == e'.data[..|e.data|][k] == e.data[k];
    assert forall k :: 0 <= k < |e.acks| ==> e'.acks[k] == e'.acks[..|e.acks|][k] == e.acks[k];
  }

  /** Receiving a packet adds its counter to what was heard, at most, and may add an acknowledgement. */
  lemma ReceiveGrows(e: End, x: Arrival)
    ensures var e' := Screened(e, x).0;
            && e'.peer == e.peer && e'.data == e.data
            && |e.acks| <= |e'.acks| && e'.acks[..|e.acks|] == e.acks
            && e'.heard == (if Passes(e, x) then e.heard + {x.packet.value.counter} else e.heard)
  {
    hide Check;
  }

  lemma SendDataHonest(e: End, protocolId: uint16, opcode: uint8, needsAck: bool, payload: bytes)
    requires Honest(e)
    ensures Honest(SendData(e, protocolId, opcode, needsAck, payload))
  {
  }

  /** A side that hears what the other sent keeps the pair faithful. */
  lemma DeliverFaithful(w: World, first: set<uint32>, b: bool, x: Arrival)
    requires Faithful(w, first)
    requires Passes(Side(w, b), x) ==> Sent(Side(w, !b), x.packet.value.counter)
    ensures Faithful(Put(w, b, Screened(Side(w, b), x).0), first)
  {
    hide Honest, Sent, Screened, Passes;
    ScreenKeepsHonest(Side(w, b), x);
    ReceiveGrows(Side(w, b), x);
    SentGrows(Side(w, b), Screened(Side(w, b), x).0);
  }

  lemma DoFaithful(w: World, first: set<uint32>, op: Op)
    requires Faithful(w, first) && Possible(w, op)
    ensures Faithful(Do(w, op), first)
  {
    hide Honest, Screened, Passes, Sent, SendData;
    match op
    case SendNew(b, protocolId, opcode, needsAck, payload) =>
      SendDataHonest(Side(w, b), protocolId, opcode, needsAck, payload);
      SendFaithful(w, first, b, protocolId, opcode, needsAck, payload);
    case Resend(b, k) => ResendFaithful(w, first, b, k);
    case DeliverData(b, k) =>
      WasSent(Side(w, !b), k, false);
      DeliverFaithful(w, first, b, Arrival(Side(w, b).peer, Some(Side(w, !b).data[k])));
    case DeliverAck(b, k) =>
      WasSent(Side(w, !b), k, true);
      DeliverFaithful(w, first, b, Arrival(Side(w, b).peer, Some(Side(w, !b).acks[k])));
    case Stray(b, x) =>
      StrayFails(Side(w, b), x);
      DeliverFaithful(w, first, b, x);
  }

  lemma WasSent(e: End, k: nat, ack: bool)
    requires k < if ack then |e.acks| else |e.data|
    ensures Sent(e, if ack then e.acks[k].counter else e.data[k].counter)
  {
  }

  lemma StrayFails(e: End, x: Arrival)
    requires x.from != e.peer
    ensures !Passes(e, x)
  {
  }

  lemma SendFaithful(
    w: World, first: set<uint32>, b: bool, protocolId: uint16, opcode: uint8, needsAck: bool, payload: bytes)
    requires Faithful(w, first) && Honest(SendData(Side(w, b), protocolId, opcode, needsAck, payload))
    ensures Faithful(Put(w, b, SendData(Side(w, b), protocolId, opcode, needsAck, payload)), first)
  {
    var e' := SendData(Side(w, b), protocolId, opcode, needsAck, payload);
    hide Honest, Sent;
    SentGrows(Side(w, b), e');
  }

  lemma ResendFaithful(w: World, first: set<uint32>, b: bool, k: nat)
    requires Faithful(w, first) && k < |Side(w, b).data|
    ensures Faithful(Put(w, b, Side(w, b).(data := Side(w, b).data + [Side(w, b).data[k]])), first)
  {
    var e := Side(w, b);
    var e' := e.(data := e.data + [e.data[k]]);
    assert Honest(e');
    hide Honest, Sent;
    SentGrows(e, e');
  }

  ghost predicate Running(ws: seq<World>, ops: seq<Op>) {
    |ws| == |ops| + 1 && forall k :: 0 <= k < |ops| ==> Possible(ws[k], ops[k]) && ws[k + 1] == Do(ws[k], ops[k])
  }

  lemma {:induction false} RunsAreFaithful(ws: seq<World>, ops: seq<Op>, first: set<uint32>, n: nat)
    requires Running(ws, ops) && Faithful(ws[0], first) && n <= |ops|
    ensures Faithful(ws[n], first)
  {
    hide Faithful, Do;
    if n > 0 {
      RunsAreFaithful(ws, ops, first, n - 1);
      assert ws[n] == Do(ws[n - 1], ops[n - 1]);
      DoFaithful(ws[n - 1], first, ops[n - 1]);
    }
  }

  /** An exchange as it is opened is faithful. */
  lemma OpeningIsFaithful(peerOfA: nat, peerOfB: nat, id: uint16, ra: bool, rb: bool, src: uint64, ca: uint32,
                          node: Option<uint64>, opener: uint32, cb: uint32)
    ensures Faithful(World(Opened(peerOfA, id, ra, Initiator(src), ca),
                           Opened(peerOfB, id, rb, Responder(node, opener), cb)), {opener})
  {
    hide Check;
  }

  /** When a wait for an acknowledgement ends with the peer's packet, the peer had received the very counter that
      was sent: in every run, whatever was lost, repeated or reordered before. */
  lemma AckedMeansReceived(ws: seq<World>, ops: seq<Op>, first: set<uint32>, n: nat, atB: bool, kind: Kind, c: uint32,
                           p: Packet)
    requires Running(ws, ops) && Faithful(ws[0], first) && n <= |ops|
    requires Wrote(Side(ws[n], !atB), p) && Verdict(kind, c, p) == Some(None)
    ensures Honest(Side(ws[n], !atB)) && c in Side(ws[n], !atB).heard
    ensures atB ==> Sent(ws[n].b, c)
    ensures !atB && c !in first ==> Sent(ws[n].a, c)
  {
    RunsAreFaithful(ws, ops, first, n);
    WrittenAckWasHeard(Side(ws[n], !atB), p, c);
    hide Running, Sent;
  }
}
