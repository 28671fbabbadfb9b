/** ECDSA signatures in DER (crates/mat-controller/src/asn1.rs, crates/mat-controller/src/x509.rs). */
module Signatures {
  import opened Wrappers
  import opened Der

  const SEQUENCE: uint8 := 0x30
  const INTEGER: uint8 := 0x02

  // ---------------------------------------------------------------- integers

  /** The bytes without leading zeros, but for a last one. */
  function Minimal(b: bytes): (r: bytes)
    ensures |r| <= |b| && r == b[|b| - |r|..]
    ensures forall k :: 0 <= k < |b| - |r| ==> b[k] == 0
    ensures b != [] ==> r != [] && (|r| > 1 ==> r[0] != 0)
  {
    if |b| > 1 && b[0] == 0 then Minimal(b[1..]) else b
  }

  /** The content of an unsigned integer: a zero keeps a high first bit from being a sign. */
  function UintContent(b: bytes): bytes {
    var m := Minimal(b);
    if m != [] && m[0] >= 0x80 then [0] + m else m
  }

  method UintInteger(b: bytes) returns (der: bytes)
    requires |b| < MAX_LEN
    ensures |UintContent(b)| <= MAX_LEN && der == Tlv(INTEGER, UintContent(b))
  {
    var m := b;
    while |m| > 1 && m[0] == 0
      invariant |m| <= |b| && Minimal(m) == Minimal(b)
      decreases |m|
    {
      m := m[1..];
    }
    if m != [] && m[0] >= 0x80 {
      der := Tlv(INTEGER, [0] + m);
    } else {
      der := Tlv(INTEGER, m);
    }
  }

  function Zeros(n: nat): bytes { seq(n, _ => 0) }

  /** An integer's content as 32 bytes. */
  function IntTo32(b: bytes): Option<bytes> {
    var m := if |b| > 1 && b[0] == 0 then b[1..] else b;
    if m == [] || |m| > 32 then None else Some(Zeros(32 - |m|) + m)
  }

  /** A number of 32 bytes written as an integer is read back as it was. */
  lemma IntegerRoundTrip(b: bytes)
    requires |b| == 32
    ensures IntTo32(UintContent(b)) == Some(b) && 1 <= |UintContent(b)| <= 33
  {
    hide Minimal;
    var m := Minimal(b);
    assert b[..32 - |m|] == Zeros(32 - |m|);
    assert b == Zeros(32 - |m|) + m;
    if m[0] >= 0x80 { assert ([0] + m)[1..] == m; }
    hide Zeros;
  }

  // ---------------------------------------------------------------- signatures

  /** `SEQUENCE { INTEGER r, INTEGER s }` for a signature of 64 bytes. */
  function EcdsaSignature(sig: bytes): bytes
    requires |sig| == 64
  {
    IntegerRoundTrip(sig[..32]);
    IntegerRoundTrip(sig[32..]);
    Tlv(SEQUENCE, Tlv(INTEGER, UintContent(sig[..32])) + Tlv(INTEGER, UintContent(sig[32..])))
  }

  /** The content of the item at `pos` if it has the tag, and where the item ends. */
  function ExpectAt(buf: bytes, pos: nat, tag: uint8): Result<(bytes, nat), DerError> {
    match ReadItem(buf, pos)
    case Err(e) => Err(e)
    case Ok((item, end)) => if item.tag == tag then Ok((item.content, end)) else Err(UnexpectedTag)
  }

  /** The 64 bytes of a signature; `None` for whatever does not read. What follows the parts is ignored. */
  function EcdsaParsed(der: bytes): Option<bytes> {
    match ExpectAt(der, 0, SEQUENCE)
    case Err(_) => None
    case Ok((body, _)) =>
      match ExpectAt(body, 0, INTEGER)
      case Err(_) => None
      case Ok((r, end)) =>
        match ExpectAt(body, end, INTEGER)
        case Err(_) => None
        case Ok((s, _)) =>
          if IntTo32(r).None? || IntTo32(s).None? then None else Some(IntTo32(r).value + IntTo32(s).value)
  }

  method ParseEcdsaDerSignature(der: bytes) returns (r: Option<bytes>)
    ensures r == EcdsaParsed(der)
  {
    hide ReadItem, IntTo32;
    var top := new DerReader(der);
    var body := top.Expect(SEQUENCE);
    if body.Err? { return None; }
    var inner := new DerReader(body.value);
    var rBytes := inner.Expect(INTEGER);
    if rBytes.Err? { return None; }
    var sBytes := inner.Expect(INTEGER);
    if sBytes.Err? { return None; }
    var r32 := IntTo32(rBytes.value);
    if r32.None? { return None; }
    var s32 := IntTo32(sBytes.value);
    if s32.None? { return None; }
    return Some(r32.value + s32.value);
  }

  /** An item that was written is found under its tag, and reading stops right behind it. */
  lemma ExpectTlv(before: bytes, tag: uint8, content: bytes, rest: bytes)
    requires |content| <= MAX_LEN
    ensures ExpectAt(before + Tlv(tag, content) + rest, |before|, tag) == Ok((content, |before| + |Tlv(tag, content)|))
    ensures ReadItem(before + Tlv(tag, content) + rest, |before|).Ok?
            && ReadItem(before + Tlv(tag, content) + rest, |before|).value.0.tag == tag
  {
    hide Tlv, ReadItem;
    var buf, t := before + Tlv(tag, content) + rest, Tlv(tag, content);
    assert buf[|before|..|before| + |t|] == t;
    ReadTlv(buf, |before|, tag, content);
  }

  /** The only item of a buffer. */
  lemma ExpectWhole(tag: uint8, content: bytes)
    requires |content| <= MAX_LEN
    ensures ExpectAt(Tlv(tag, content), 0, tag) == Ok((content, |Tlv(tag, content)|))
  {
    hide Tlv, ExpectAt, ReadItem;
    ExpectTlv([], tag, content, []);
    assert [] + Tlv(tag, content) + [] == Tlv(tag, content);
  }

  /** Every signature of 64 bytes written in DER is read back as it was. */
  lemma EcdsaRoundTrip(sig: bytes)
    requires |sig| == 64
    ensures EcdsaParsed(EcdsaSignature(sig)) == Some(sig)
  {
    hide Tlv, ExpectAt, UintContent, IntTo32;
    IntegerRoundTrip(sig[..32]);
    IntegerRoundTrip(sig[32..]);
    var r, s := Tlv(INTEGER, UintContent(sig[..32])), Tlv(INTEGER, UintContent(sig[32..]));
    SmallTlv(INTEGER, UintContent(sig[..32]));
    SmallTlv(INTEGER, UintContent(sig[32..]));
    ExpectWhole(SEQUENCE, r + s);
    ExpectTlv([], INTEGER, UintContent(sig[..32]), s);
    ExpectTlv(r, INTEGER, UintContent(sig[32..]), []);
    assert [] + r + s == r + s && r + s + [] == r + s;
    assert sig[..32] + sig[32..] == sig;
  }

  lemma SmallTlv(tag: uint8, content: bytes)
    requires |content| < 128
    ensures |Tlv(tag, content)| == |content| + 2
  {
  }
}
