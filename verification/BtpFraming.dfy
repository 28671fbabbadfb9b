/** BTP data packets: flags, wire form, decoding and reassembly (crates/mat-controller/src/btp.rs). */
module BtpFraming {
  import opened Wrappers

  const FLAG_B: uint8 := 0x01 // beginning segment
  const FLAG_E: uint8 := 0x04 // ending segment
  const FLAG_A: uint8 := 0x08 // ack number present
  const FLAG_H: uint8 := 0x40 // handshake

  const MAX_MESSAGE: nat := 0xFFFF

  datatype BtpError =
    | EmptyPacket | UnexpectedHandshake | TruncatedAck | TruncatedSeq | TruncatedLen
    | BeginningMidMessage | NoMsgLen | ContinuationWithoutBeginning | LongerThanDeclared | LengthMismatch
    | AckForUnsentFrame | OutOfOrderSeq | MessageTooLong
    | WindowTimeout | Closed

  datatype SegmentPos = First(ending: bool) | Middle | Last

  datatype Packet = Packet(
    beginning: bool, ending: bool, ack: Option<uint8>, seqNo: uint8, msgLen: Option<uint16>, payload: bytes)

  /** `flags & mask != 0` for a one-bit mask. */
  predicate HasFlag(flags: uint8, mask: uint8)
    requires mask != 0
  {
    flags / mask % 2 == 1
  }

  function U16Le(v: uint16): (b: bytes)
    ensures |b| == 2
  {
    [v % 0x100, v / 0x100]
  }

  function FromU16Le(lo: uint8, hi: uint8): uint16 { lo + 0x100 * hi }

  // ---------------------------------------------------------------- wire form

  function FlagsOf(p: Packet): uint8 {
    (if p.beginning then FLAG_B else 0) + (if p.ending then FLAG_E else 0) + (if p.ack.Some? then FLAG_A else 0)
  }

  /** Everything after the flags byte. */
  function Body(p: Packet): bytes {
    (if p.ack.Some? then [p.ack.value] else []) + [p.seqNo]
    + (if p.msgLen.Some? then U16Le(p.msgLen.value) else []) + p.payload
  }

  function Wire(p: Packet): bytes { [FlagsOf(p)] + Body(p) }

  /** A packet a decoder can return: a length exactly on beginning segments. */
  predicate Coherent(p: Packet) { p.msgLen.Some? == p.beginning }

  function PacketAt(seqNo: uint8, ack: Option<uint8>, position: SegmentPos, msgLen: Option<uint16>, payload: bytes)
    : Packet
  {
    Packet(position.First?, position.Last? || (position.First? && position.ending), ack, seqNo, msgLen, payload)
  }

  function StandaloneAck(seqNo: uint8, ack: uint8): Packet {
    Packet(false, false, Some(ack), seqNo, None, [])
  }

  method EncodeDataPacket(
    seqNo: uint8, ack: Option<uint8>, position: SegmentPos, msgLen: Option<uint16>, payload: bytes)
    returns (out: bytes)
    ensures out == Wire(PacketAt(seqNo, ack, position, msgLen, payload))
  {
    var flags: uint8 := 0;
    match position {
      case First(ending) =>
        flags := flags + FLAG_B;
        if ending { flags := flags + FLAG_E; }
      case Middle =>
      case Last => flags := flags + FLAG_E;
    }
    if ack.Some? { flags := flags + FLAG_A; }
    out := [flags];
    if ack.Some? { out := out + [ack.value]; }
    out := out + [seqNo];
    if msgLen.Some? { out := out + U16Le(msgLen.value); }
    out := out + payload;
  }

  method EncodeStandaloneAck(seqNo: uint8, ack: uint8) returns (out: bytes)
    ensures out == Wire(StandaloneAck(seqNo, ack)) && |out| == 3
  {
    out := [FLAG_A, ack, seqNo];
  }

  function SegmentPayloadCapacity(segmentSize: uint16, first: bool, withAck: bool): (cap: nat)
    ensures segmentSize >= 20 ==> 15 <= cap < segmentSize
  {
    var header := 1 + (if withAck then 1 else 0) + 1 + (if first then 2 else 0);
    if segmentSize >= header then segmentSize - header else 0
  }

  // ---------------------------------------------------------------- decoding

  /** What `Packet::decode` returns, by position in the buffer. */
  function Decode(buf: bytes): Result<Packet, BtpError> {
    if |buf| == 0 then Err(EmptyPacket)
    else if HasFlag(buf[0], FLAG_H) then Err(UnexpectedHandshake)
    else
      var seqAt := if HasFlag(buf[0], FLAG_A) then 2 else 1;
      var begins := HasFlag(buf[0], FLAG_B);
      if HasFlag(buf[0], FLAG_A) && |buf| < 2 then Err(TruncatedAck)
      else if |buf| <= seqAt then Err(TruncatedSeq)
      else if begins && |buf| < seqAt + 3 then Err(TruncatedLen)
      else Ok(Packet(
                begins, HasFlag(buf[0], FLAG_E),
                if HasFlag(buf[0], FLAG_A) then Some(buf[1]) else None,
                buf[seqAt],
                if begins then Some(FromU16Le(buf[seqAt + 1], buf[seqAt + 2])) else None,
                buf[if begins then seqAt + 3 else seqAt + 1..]))
  }

  method DecodePacket(buf: bytes) returns (r: Result<Packet, BtpError>)
    ensures r == Decode(buf)
  {
    var i := 0;
    if |buf| == 0 { return Err(EmptyPacket); }
    var flags := buf[0];
    i := i + 1;
    if HasFlag(flags, FLAG_H) { return Err(UnexpectedHandshake); }
    var ack: Option<uint8> := None;
    if HasFlag(flags, FLAG_A) {
      if |buf| <= i { return Err(TruncatedAck); }
      ack := Some(buf[i]);
      i := i + 1;
    }
    if |buf| <= i { return Err(TruncatedSeq); }
    var seqNo := buf[i];
    i := i + 1;
    var beginning := HasFlag(flags, FLAG_B);
    var msgLen: Option<uint16> := None;
    if beginning {
      if |buf| < i + 2 { return Err(TruncatedLen); }
      msgLen := Some(FromU16Le(buf[i], buf[i + 1]));
      i := i + 2;
    }
    return Ok(Packet(beginning, HasFlag(flags, FLAG_E), ack, seqNo, msgLen, buf[i..]));
  }

  /** What decodes is exactly a flags byte without the handshake bit, matching the packet, then its body. */
  lemma DecodeIsExact(buf: bytes, p: Packet)
    ensures Decode(buf) == Ok(p) <==>
            Coherent(p) && |buf| > 0 && !HasFlag(buf[0], FLAG_H) && buf[1..] == Body(p)
            && (HasFlag(buf[0], FLAG_B) <==> p.beginning)
            && (HasFlag(buf[0], FLAG_E) <==> p.ending)
            && (HasFlag(buf[0], FLAG_A) <==> p.ack.Some?)
  {
    if |buf| > 0 {
      var seqAt := if p.ack.Some? then 2 else 1;
      var b := Body(p);
      assert b[seqAt - 1] == p.seqNo;
      assert p.ack.Some? ==> b[0] == p.ack.value;
      if p.msgLen.Some? {
        assert b[seqAt] == U16Le(p.msgLen.value)[0] && b[seqAt + 1] == U16Le(p.msgLen.value)[1];
        assert b[seqAt + 2..] == p.payload;
      } else {
        assert b[seqAt..] == p.payload;
      }
      if buf[1..] == b {
        assert forall k :: 0 <= k < |b| ==> buf[k + 1] == b[k];
        assert forall k :: 1 <= k <= |buf| ==> buf[k..] == buf[1..][k - 1..];
      }
      if Decode(buf) == Ok(p) {
        if p.beginning {
          assert U16Le(FromU16Le(buf[seqAt + 1], buf[seqAt + 2])) == [buf[seqAt + 1], buf[seqAt + 2]];
        }
        assert buf[1..] == b;
      }
    }
  }

  /** The flags byte carries each flag exactly when the packet asks for it, and never the handshake bit. */
  lemma FlagsDecode(p: Packet)
    ensures HasFlag(FlagsOf(p), FLAG_B) == p.beginning
    ensures HasFlag(FlagsOf(p), FLAG_E) == p.ending
    ensures HasFlag(FlagsOf(p), FLAG_A) == p.ack.Some?
    ensures !HasFlag(FlagsOf(p), FLAG_H)
  {
  }

  /** Decoding undoes encoding. */
  lemma DecodeWire(p: Packet)
    requires Coherent(p)
    ensures Decode(Wire(p)) == Ok(p)
  {
    FlagsDecode(p);
    assert Wire(p)[1..] == Body(p);
    DecodeIsExact(Wire(p), p);
  }

  // ---------------------------------------------------------------- reassembly

  datatype Reasm = Reasm(buf: bytes, expected: Option<uint16>)

  const EMPTY_REASM := Reasm([], None)

  /** Adding a segment that belongs to a message of declared length `n`. */
  function Extend(buf: bytes, n: uint16, p: Packet): (Reasm, Result<Option<bytes>, BtpError>) {
    var b := buf + p.payload;
    if n < |b| then (Reasm(b, None), Err(LongerThanDeclared))
    else if !p.ending then (Reasm(b, Some(n)), Ok(None))
    else if |b| != n then (Reasm(b, None), Err(LengthMismatch))
    else (EMPTY_REASM, Ok(Some(b)))
  }

  /** The reassembler as a transition on its two fields. */
  function Push(r: Reasm, p: Packet): (Reasm, Result<Option<bytes>, BtpError>) {
    if p.beginning then
      if r.expected.Some? then (r, Err(BeginningMidMessage))
      else if p.msgLen.None? then (r, Err(NoMsgLen))
      else Extend([], p.msgLen.value, p)
    else if r.expected.None? then
      (r, if p.payload == [] then Ok(None) else Err(ContinuationWithoutBeginning))
    else Extend(r.buf, r.expected.value, p)
  }

  class Reassembler {
    var buf: bytes
    var expected: Option<uint16>

    function View(): Reasm
      reads this
    {
      Reasm(buf, expected)
    }

    constructor ()
      ensures View() == EMPTY_REASM
    {
      buf, expected := [], None;
    }

    method PushPacket(pkt: Packet) returns (r: Result<Option<bytes>, BtpError>)
      modifies this
      ensures (View(), r) == Push(old(View()), pkt)
    {
      if pkt.beginning {
        if expected.Some? { return Err(BeginningMidMessage); }
        if pkt.msgLen.None? { return Err(NoMsgLen); }
        expected := Some(pkt.msgLen.value);
        buf := [];
      } else if expected.None? {
        if pkt.payload == [] { return Ok(None); }
        return Err(ContinuationWithoutBeginning);
      }
      buf := buf + pkt.payload;
      var n := expected.value;
      if n < |buf| {
        expected := None;
        return Err(LongerThanDeclared);
      }
      if pkt.ending {
        if |buf| != n {
          expected := None;
          return Err(LengthMismatch);
        }
        expected := None;
        var msg := buf;
        buf := [];
        return Ok(Some(msg));
      }
      return Ok(None);
    }
  }
}
