/** The onboarding payload of QR codes (crates/mat-controller/src/setup_code.rs), section 5.1 of the Matter
    Core Specification. */
module SetupPayload {
  import opened Wrappers
  import opened Power
  import opened LittleEndian
  import opened Base38

  const PAYLOAD_BYTES: nat := 11
  const QR_PREFIX := "MT:"

  datatype Payload = Payload(
    version: nat, vendorId: nat, productId: nat, customFlow: nat, discoveryCapabilities: nat, discriminator: nat,
    passcode: nat)

  /** The field widths: 3, 16, 16, 2, 8, 12 and 27 bits. */
  predicate InRange(p: Payload) {
    && p.version < 0x8 && p.vendorId < 0x1_0000 && p.productId < 0x1_0000 && p.customFlow < 0x4
    && p.discoveryCapabilities < 0x100 && p.discriminator < 0x1000 && p.passcode < 0x800_0000
  }

  /** The fields one after the other, the first in the lowest bits. */
  function Packed(p: Payload): nat {
    p.version + p.vendorId * 0x8 + p.productId * 0x8_0000 + p.customFlow * 0x8_0000_0000
    + p.discoveryCapabilities * 0x20_0000_0000 + p.discriminator * 0x2000_0000_0000
    + p.passcode * 0x200_0000_0000_0000
  }

  /** `bits` bits of `acc` from bit `offset` on. */
  function ExtractBits(acc: nat, offset: nat, bits: nat): nat { acc / Pow(2, offset) % Pow(2, bits) }

  lemma Pow2Values()
    ensures Pow(2, 2) == 4 && Pow(2, 3) == 8 && Pow(2, 8) == 0x100 && Pow(2, 12) == 0x1000 && Pow(2, 16) == 0x1_0000
    ensures Pow(2, 27) == 0x800_0000
    ensures Pow(2, 0) == 1 && Pow(2, 19) == 0x8_0000 && Pow(2, 35) == 0x8_0000_0000 && Pow(2, 37) == 0x20_0000_0000
    ensures Pow(2, 45) == 0x2000_0000_0000 && Pow(2, 57) == 0x200_0000_0000_0000 && Pow(2, 84) == 0x10_0000_0000_0000_0000_0000
  {
    Pow2Add(3, 0);
    Pow2Add(3, 3); Pow2Add(6, 2); Pow2Add(8, 4); Pow2Add(8, 8); Pow2Add(16, 3); Pow2Add(19, 8); Pow2Add(19, 16);
    Pow2Add(35, 2); Pow2Add(37, 8); Pow2Add(45, 12); Pow2Add(57, 27);
    assert Pow(2, 1) == 2 * Pow(2, 0) && Pow(2, 2) == 2 * Pow(2, 1) && Pow(2, 3) == 2 * Pow(2, 2) && Pow(2, 4) == 2 * Pow(2, 3);
    hide Pow;
  }

  /** One field is put above what is there. */
  method PushBits(acc: nat, offset: nat, value: nat, bits: nat) returns (acc': nat, offset': nat)
    requires acc < Pow(2, offset) && value < Pow(2, bits)
    ensures acc' == acc + value * Pow(2, offset) && offset' == offset + bits && acc' < Pow(2, offset')
  {
    Pow2Add(offset, bits);
    Above(value, Pow(2, bits), Pow(2, offset));
    acc' := acc + value * Pow(2, offset);
    offset' := offset + bits;
  }

  lemma Above(v: nat, n: nat, p: nat)
    requires v < n
    ensures v * p + p <= n * p
  {
    assert (n - v - 1) * p >= 0;
    assert n * p - v * p - p == (n - v - 1) * p;
  }

  method PackPayload(p: Payload) returns (b: bytes)
    requires InRange(p)
    ensures b == Le(Packed(p), PAYLOAD_BYTES)
  {
    Pow2Values();
    hide Pow;
    var acc, offset := PushBits(0, 0, p.version, 3);
    acc, offset := PushBits(acc, offset, p.vendorId, 16);
    acc, offset := PushBits(acc, offset, p.productId, 16);
    acc, offset := PushBits(acc, offset, p.customFlow, 2);
    acc, offset := PushBits(acc, offset, p.discoveryCapabilities, 8);
    acc, offset := PushBits(acc, offset, p.discriminator, 12);
    acc, offset := PushBits(acc, offset, p.passcode, 27);
    b := Le(acc, PAYLOAD_BYTES);
  }

  /** The fields of the first 11 bytes. */
  function Unpacked(b: bytes): Payload
    requires |b| >= PAYLOAD_BYTES
  {
    var acc := FromLe(b[..PAYLOAD_BYTES]);
    Payload(ExtractBits(acc, 0, 3), ExtractBits(acc, 3, 16), ExtractBits(acc, 19, 16), ExtractBits(acc, 35, 2),
            ExtractBits(acc, 37, 8), ExtractBits(acc, 45, 12), ExtractBits(acc, 57, 27))
  }

  lemma FieldAt(low: nat, unit: nat, field: nat, width: nat, high: nat, acc: nat)
    requires low < unit && field < width && acc == low + unit * (field + width * high)
    ensures acc / unit % width == field
  {
    DivideIs(acc, unit, field + width * high);
    ModIs(field, width, high);
  }

  lemma ModIs(field: nat, width: nat, high: nat)
    requires field < width
    ensures (field + width * high) % width == field
  {
    DivideIs(field + width * high, width, high);
  }

  /** Fields that fit are read back from the number they were packed into. */
  lemma FieldsRead(p: Payload)
    requires InRange(p)
    ensures var acc := Packed(p);
            && ExtractBits(acc, 0, 3) == p.version && ExtractBits(acc, 3, 16) == p.vendorId
            && ExtractBits(acc, 19, 16) == p.productId && ExtractBits(acc, 35, 2) == p.customFlow
            && ExtractBits(acc, 37, 8) == p.discoveryCapabilities && ExtractBits(acc, 45, 12) == p.discriminator
            && ExtractBits(acc, 57, 27) == p.passcode
    ensures Packed(p) < 0x10_0000_0000_0000_0000_0000
  {
    Pow2Values();
    hide Pow;
    var acc := Packed(p);
    var h6 := p.passcode;
    var h5 := p.discriminator + 0x1000 * h6;
    var h4 := p.discoveryCapabilities + 0x100 * h5;
    var h3 := p.customFlow + 4 * h4;
    var h2 := p.productId + 0x1_0000 * h3;
    var h1 := p.vendorId + 0x1_0000 * h2;
    var l1 := p.version;
    var l2 := l1 + 8 * p.vendorId;
    var l3 := l2 + 0x8_0000 * p.productId;
    var l4 := l3 + 0x8_0000_0000 * p.customFlow;
    var l5 := l4 + 0x20_0000_0000 * p.discoveryCapabilities;
    var l6 := l5 + 0x2000_0000_0000 * p.discriminator;
    FieldAt(0, 1, p.version, 8, h1, acc);
    FieldAt(l1, 8, p.vendorId, 0x1_0000, h2, acc);
    FieldAt(l2, 0x8_0000, p.productId, 0x1_0000, h3, acc);
    FieldAt(l3, 0x8_0000_0000, p.customFlow, 4, h4, acc);
    FieldAt(l4, 0x20_0000_0000, p.discoveryCapabilities, 0x100, h5, acc);
    FieldAt(l5, 0x2000_0000_0000, p.discriminator, 0x1000, h6, acc);
    FieldAt(l6, 0x200_0000_0000_0000, p.passcode, 0x800_0000, 0, acc);
  }

  lemma {:induction false} Pow256IsPow2(n: nat)
    ensures Pow(0x100, n) == Pow(2, 8 * n)
  {
    if n > 0 {
      Pow256IsPow2(n - 1);
      Pow2Add(8 * (n - 1), 8);
      Pow2Values();
      hide Pow;
    }
  }

  /** A payload whose fields fit is read back from its bytes, whatever follows them. */
  lemma PayloadRoundTrip(p: Payload, more: bytes)
    requires InRange(p)
    ensures Unpacked(Le(Packed(p), PAYLOAD_BYTES) + more) == p
  {
    hide ExtractBits, Packed, Le, FromLe;
    FieldsRead(p);
    Pow256IsPow2(PAYLOAD_BYTES);
    Pow2Values();
    Pow2Add(84, 4);
    hide Pow;
    LeRoundTrip(Packed(p), PAYLOAD_BYTES);
    var b := Le(Packed(p), PAYLOAD_BYTES);
    assert (b + more)[..PAYLOAD_BYTES] == b;
  }

  // ---------------------------------------------------------------- QR texts

  function EncodeQr(p: Payload): string
    requires InRange(p)
  {
    QR_PREFIX + Encode(Le(Packed(p), PAYLOAD_BYTES))
  }

  /** The payload of a QR text; what follows the first 11 bytes is ignored. */
  function ParseQr(s: string): Result<Payload, SetupCodeError> {
    if |s| < 3 || s[..3] != QR_PREFIX then Err(BadPrefix)
    else
      match Decode(s[3..])
      case Err(e) => Err(e)
      case Ok(b) =>
        if |b| < PAYLOAD_BYTES then Err(BadLength)
        else if Unpacked(b).passcode == 0 then Err(ZeroPasscode)
        else Ok(Unpacked(b))
  }

  /** Every payload whose fields fit is read back from its text, unless its passcode is 0, which is refused. */
  lemma QrRoundTrip(p: Payload)
    requires InRange(p)
    ensures ParseQr(EncodeQr(p)) == if p.passcode == 0 then Err(ZeroPasscode) else Ok(p)
  {
    hide Encode, Decode, Unpacked, Packed, Le;
    var b := Le(Packed(p), PAYLOAD_BYTES);
    DecodeOfEncode(b);
    PayloadRoundTrip(p, []);
    assert b + [] == b;
    assert EncodeQr(p)[..3] == QR_PREFIX && EncodeQr(p)[3..] == Encode(b);
  }

  /** Different payloads have different texts. */
  lemma QrTextsDiffer(p: Payload, q: Payload)
    requires InRange(p) && InRange(q) && EncodeQr(p) == EncodeQr(q)
    ensures p == q
  {
    hide Encode, Decode, Unpacked, Packed, Le;
    var b, c := Le(Packed(p), PAYLOAD_BYTES), Le(Packed(q), PAYLOAD_BYTES);
    assert EncodeQr(p)[3..] == Encode(b) && EncodeQr(q)[3..] == Encode(c);
    DecodeOfEncode(b);
    DecodeOfEncode(c);
    PayloadRoundTrip(p, []);
    PayloadRoundTrip(q, []);
  }
}
