/** Exactly which onboarding texts are accepted, and for what (crates/mat-controller/src/setup_code.rs). */
module SetupExact {
  import opened Wrappers
  import opened Power
  import opened LittleEndian
  import opened Base38
  import opened SetupPayload
  import opened Verhoeff
  import opened ManualCode

  // ---------------------------------------------------------------- QR texts

  /** The text of a payload with the four bits above its fields set to `spare`, and with more bytes behind it. */
  function LooseQr(p: Payload, spare: nat, more: bytes): string {
    "MT:" + Encode(Le(Packed(p) + spare * 0x10_0000_0000_0000_0000_0000, 11) + more)
  }

  lemma LowAndHigh(acc: nat, unit: nat, width: nat) returns (field: nat, high: nat)
    requires unit > 0 && width > 0
    ensures field == acc / unit % width && field < width && high == acc / (unit * width)
    ensures acc / unit == field + width * high
  {
    field, high := acc / unit % width, acc / unit / width;
    DivDiv(acc, unit, width);
  }

  /** A number of 88 bits is the fields read from it and the four bits above them. */
  lemma FieldsOfNumber(acc: nat, p: Payload)
    requires acc < 0x100_0000_0000_0000_0000_0000
    requires p == Payload(acc % 8, acc / 8 % 0x1_0000, acc / 0x8_0000 % 0x1_0000, acc / 0x8_0000_0000 % 4,
                          acc / 0x20_0000_0000 % 0x100, acc / 0x2000_0000_0000 % 0x1000,
                          acc / 0x200_0000_0000_0000 % 0x800_0000)
    ensures InRange(p) && acc == Packed(p) + acc / 0x10_0000_0000_0000_0000_0000 * 0x10_0000_0000_0000_0000_0000
    ensures acc / 0x10_0000_0000_0000_0000_0000 < 16
  {
    var f1, h1 := LowAndHigh(acc, 1, 8);
    var f2, h2 := LowAndHigh(acc, 8, 0x1_0000);
    var f3, h3 := LowAndHigh(acc, 0x8_0000, 0x1_0000);
    var f4, h4 := LowAndHigh(acc, 0x8_0000_0000, 4);
    var f5, h5 := LowAndHigh(acc, 0x20_0000_0000, 0x100);
    var f6, h6 := LowAndHigh(acc, 0x2000_0000_0000, 0x1000);
    var f7, h7 := LowAndHigh(acc, 0x200_0000_0000_0000, 0x800_0000);
  }

  lemma UnpackedFields(b: bytes)
    requires |b| >= 11
    ensures var acc := FromLe(b[..11]);
            Unpacked(b) == Payload(acc % 8, acc / 8 % 0x1_0000, acc / 0x8_0000 % 0x1_0000, acc / 0x8_0000_0000 % 4,
                                   acc / 0x20_0000_0000 % 0x100, acc / 0x2000_0000_0000 % 0x1000,
                                   acc / 0x200_0000_0000_0000 % 0x800_0000)
  {
    Pow2Values();
    hide Pow, FromLe;
  }

  /** The fields and the spare bits are read apart again. */
  lemma NumberOfFields(p: Payload, spare: nat)
    requires InRange(p) && spare < 16
    ensures var acc := Packed(p) + spare * 0x10_0000_0000_0000_0000_0000;
            && acc < 0x100_0000_0000_0000_0000_0000
            && p == Payload(acc % 8, acc / 8 % 0x1_0000, acc / 0x8_0000 % 0x1_0000, acc / 0x8_0000_0000 % 4,
                            acc / 0x20_0000_0000 % 0x100, acc / 0x2000_0000_0000 % 0x1000,
                            acc / 0x200_0000_0000_0000 % 0x800_0000)
  {
    var acc := Packed(p) + spare * 0x10_0000_0000_0000_0000_0000;
    var h6 := p.passcode + 0x800_0000 * spare;
    var h5 := p.discriminator + 0x1000 * h6;
    var h4 := p.discoveryCapabilities + 0x100 * h5;
    var h3 := p.customFlow + 4 * h4;
    var h2 := p.productId + 0x1_0000 * h3;
    var h1 := p.vendorId + 0x1_0000 * h2;
    var l1 := p.version;
    var l2 := l1 + 8 * p.vendorId;
    var l3 := l2 + 0x8_0000 * p.productId;
    var l4 := l3 + 0x8_0000_0000 * p.customFlow;
    var l5 := l4 + 0x20_0000_0000 * p.discoveryCapabilities;
    var l6 := l5 + 0x2000_0000_0000 * p.discriminator;
    FieldAt(0, 1, p.version, 8, h1, acc);
    FieldAt(l1, 8, p.vendorId, 0x1_0000, h2, acc);
    FieldAt(l2, 0x8_0000, p.productId, 0x1_0000, h3, acc);
    FieldAt(l3, 0x8_0000_0000, p.customFlow, 4, h4, acc);
    FieldAt(l4, 0x20_0000_0000, p.discoveryCapabilities, 0x100, h5, acc);
    FieldAt(l5, 0x2000_0000_0000, p.discriminator, 0x1000, h6, acc);
    FieldAt(l6, 0x200_0000_0000_0000, p.passcode, 0x800_0000, spare, acc);
  }

  lemma ElevenBytes()
    ensures Pow(0x100, 11) == 0x100_0000_0000_0000_0000_0000
  {
    Pow256IsPow2(11);
    Pow2Values();
    Pow2Add(84, 4);
    assert Pow(2, 4) == 16 by { Pow2Add(2, 2); }
  }

  /** A text is accepted for a payload exactly if it is the payload's text, up to four spare bits and further bytes,
      and the passcode is not 0. */
  lemma QrIsExact(s: string, p: Payload)
    ensures ParseQr(s) == Ok(p) <==>
              InRange(p) && p.passcode != 0 && exists spare: nat, more: bytes :: spare < 16 && s == LooseQr(p, spare, more)
  {
    hide Encode, Decode, Unpacked, Packed, Le, FromLe, InRange;
    if ParseQr(s) == Ok(p) {
      var b := Decode(s[3..]).value;
      Bijection(s[3..], b);
      FromLeBound(b[..11]);
      ElevenBytes();
      hide Pow;
      FromLeRoundTrip(b[..11]);
      UnpackedFields(b);
      var acc := FromLe(b[..11]);
      FieldsOfNumber(acc, p);
      assert b == b[..11] + b[11..];
      assert s == LooseQr(p, acc / 0x10_0000_0000_0000_0000_0000, b[11..]);
    } else if InRange(p) && p.passcode != 0 {
      if spare: nat, more: bytes :| spare < 16 && s == LooseQr(p, spare, more) {
        LooseReads(s, p, spare, more);
      }
    }
  }

  lemma LooseReads(s: string, p: Payload, spare: nat, more: bytes)
    requires InRange(p) && p.passcode != 0 && spare < 16 && s == LooseQr(p, spare, more)
    ensures ParseQr(s) == Ok(p)
  {
    hide Encode, Decode, Unpacked, Packed, Le, FromLe, InRange;
    var acc := Packed(p) + spare * 0x10_0000_0000_0000_0000_0000;
    var b := Le(acc, 11) + more;
    assert s[3..] == Encode(b) && s[..3] == "MT:";
    DecodeOfEncode(b);
    NumberOfFields(p, spare);
    ElevenBytes();
    hide Pow;
    LeRoundTrip(acc, 11);
    assert b[..11] == Le(acc, 11);
    UnpackedFields(b);
  }

  // ---------------------------------------------------------------- manual codes

  lemma {:induction false} NumberPads(ds: seq<Digit>)
    ensures Padded(Number(ds), |ds|) == ds && Number(ds) < Pow(10, |ds|)
    decreases |ds|
  {
    if ds != [] {
      NumberPads(ds[..|ds| - 1]);
      var n, last := Number(ds[..|ds| - 1]), ds[|ds| - 1];
      assert Number(ds) / 10 == n && Number(ds) % 10 == last;
      assert ds == ds[..|ds| - 1] + [last];
    }
  }

  /** The digits of a code without its check digit. In the second group 16 bits of up to 65535 are written in five
      digits: `alias` of 1 adds 65536 to them where that still fits. `tail` are the digits of vendor and product. */
  function LooseBody(c: Code, alias: nat, tail: seq<Digit>): seq<Digit>
    requires c.passcode <= 99_999_998 && c.shortDiscriminator < 16
  {
    [c.shortDiscriminator / 4 + if tail == [] then 0 else 4]
    + Padded((alias * 4 + c.shortDiscriminator % 4) * 0x4000 + c.passcode % 0x4000, 5)
    + Padded(c.passcode / 0x4000, 4) + tail
  }

  /** The digits spell the code, with or without a tail of ten digits, and end in their check digit. */
  ghost predicate Spells(ds: seq<Digit>, c: Code) {
    && 1 <= c.passcode <= 99_999_998 && c.shortDiscriminator < 16
    && exists alias: nat, tail: seq<Digit> ::
         && (alias * 4 + c.shortDiscriminator % 4) * 0x4000 + c.passcode % 0x4000 < 100_000
         && (tail == [] || |tail| == 10)
         && ds == LooseBody(c, alias, tail) + [CheckDigit(LooseBody(c, alias, tail))]
  }

  lemma Groups4(first: nat, n: nat, m: nat, c: Code, alias: nat, long: bool)
    requires first < 8 && n < 100_000 && m < 10_000 && c.shortDiscriminator < 16
    ensures (&& c.passcode == m * 0x4000 + n % 0x4000 && c.shortDiscriminator == first % 4 * 4 + n / 0x4000 % 4
             && alias == n / 0x1_0000 && (first / 4 == 1 <==> long))
            <==> && first == c.shortDiscriminator / 4 + (if long then 4 else 0)
                 && n == (alias * 4 + c.shortDiscriminator % 4) * 0x4000 + c.passcode % 0x4000
                 && m == c.passcode / 0x4000
  {
    var hi, lo := n / 0x4000, n % 0x4000;
    assert n == hi * 0x4000 + lo;
    assert n / 0x1_0000 == hi / 4;
  }

  lemma BodyOfDigits(ds: seq<Digit>, c: Code, alias: nat)
    requires |ds| == 11 || |ds| == 21
    requires ParseDigits(ds) == Ok(c) && alias == Number(ds[1..6]) / 0x1_0000
    ensures c.passcode <= 99_999_998 && c.shortDiscriminator < 16
    ensures ds[..|ds| - 1] == LooseBody(c, alias, ds[10..|ds| - 1])
    ensures (alias * 4 + c.shortDiscriminator % 4) * 0x4000 + c.passcode % 0x4000 < 100_000
  {
    hide Number, Padded, Valid;
    var n, m := Number(ds[1..6]), Number(ds[6..10]);
    NumberPads(ds[1..6]);
    NumberPads(ds[6..10]);
    ManualCode.Powers();
    hide Pow;
    Groups4(ds[0], n, m, c, alias, |ds| == 21);
    assert ds[..|ds| - 1] == [ds[0]] + ds[1..6] + ds[6..10] + ds[10..|ds| - 1];
  }

  lemma DigitsOfBody(ds: seq<Digit>, c: Code, alias: nat, tail: seq<Digit>)
    requires 1 <= c.passcode <= 99_999_998 && c.shortDiscriminator < 16 && (tail == [] || |tail| == 10)
    requires (alias * 4 + c.shortDiscriminator % 4) * 0x4000 + c.passcode % 0x4000 < 100_000
    requires ds == LooseBody(c, alias, tail) + [CheckDigit(LooseBody(c, alias, tail))]
    ensures |ds| == 11 + |tail| && ParseDigits(ds) == Ok(c)
  {
    hide Number, Padded, CheckDigit;
    var n, m := (alias * 4 + c.shortDiscriminator % 4) * 0x4000 + c.passcode % 0x4000, c.passcode / 0x4000;
    ManualCode.Powers();
    PaddedReads(n, 5);
    PaddedReads(m, 4);
    hide Pow;
    var body := LooseBody(c, alias, tail);
    assert ds[..|ds| - 1] == body && ds[|ds| - 1] == CheckDigit(body);
    assert ds[1..6] == Padded(n, 5) && ds[6..10] == Padded(m, 4) && ds[0] == body[0];
    AliasOf(n, c, alias);
    Groups4(ds[0], n, m, c, alias, |tail| == 10);
  }

  lemma AliasOf(n: nat, c: Code, alias: nat)
    requires n == (alias * 4 + c.shortDiscriminator % 4) * 0x4000 + c.passcode % 0x4000
    ensures alias == n / 0x1_0000
  {
    var low := c.shortDiscriminator % 4 * 0x4000 + c.passcode % 0x4000;
    assert n == alias * 0x1_0000 + low && low < 0x1_0000;
  }

  /** A text is accepted for a code exactly if it spells it. */
  lemma ManualIsExact(s: string, c: Code)
    ensures ParseManualCode(s) == Ok(c) <==> AllDigits(s) && Spells(DigitsOf(s), c)
  {
    hide LooseBody, ParseDigits, CheckDigit, Number;
    if ParseManualCode(s) == Ok(c) {
      var ds := DigitsOf(s);
      var alias := Number(ds[1..6]) / 0x1_0000;
      BodyOfDigits(ds, c, alias);
      ParsedIsValid(ds, c);
      assert ds == ds[..|ds| - 1] + [ds[|ds| - 1]];
      var tail := ds[10..|ds| - 1];
      assert ds == LooseBody(c, alias, tail) + [CheckDigit(LooseBody(c, alias, tail))];
    } else if AllDigits(s) && Spells(DigitsOf(s), c) {
      var alias: nat, tail: seq<Digit> :|
        && (alias * 4 + c.shortDiscriminator % 4) * 0x4000 + c.passcode % 0x4000 < 100_000
        && (tail == [] || |tail| == 10)
        && DigitsOf(s) == LooseBody(c, alias, tail) + [CheckDigit(LooseBody(c, alias, tail))];
      DigitsOfBody(DigitsOf(s), c, alias, tail);
    }
  }

  lemma ParsedIsValid(ds: seq<Digit>, c: Code)
    requires |ds| == 11 || |ds| == 21
    requires ParseDigits(ds) == Ok(c)
    ensures ds[|ds| - 1] == CheckDigit(ds[..|ds| - 1]) && c.passcode >= 1
  {
    hide Number, CheckDigit;
  }

  /** A code has a second text that is accepted for it: the one whose second group is 65536 larger, where that group
      keeps its five digits. */
  lemma SecondText(c: Code) returns (s: string)
    requires 1 <= c.passcode <= 99_999_998 && c.shortDiscriminator < 16
    requires (4 + c.shortDiscriminator % 4) * 0x4000 + c.passcode % 0x4000 < 100_000
    ensures ParseManualCode(s) == Ok(c) && s != EncodeManualCode(c.passcode, c.shortDiscriminator)
  {
    hide LooseBody, CheckDigit, ParseDigits, Number, Body;
    var body := LooseBody(c, 1, []);
    s := TextOf(body + [CheckDigit(body)]);
    DigitsOfBody(body + [CheckDigit(body)], c, 1, []);
    SecondGroup(c);
    var t := EncodeManualCode(c.passcode, c.shortDiscriminator);
    assert DigitsOf(s)[..10] == body by { assert |body| == 10; }
    assert DigitsOf(t)[..10] == Body(c.passcode, c.shortDiscriminator);
  }

  lemma SecondGroup(c: Code)
    requires 1 <= c.passcode <= 99_999_998 && c.shortDiscriminator < 16
    requires (4 + c.shortDiscriminator % 4) * 0x4000 + c.passcode % 0x4000 < 100_000
    ensures LooseBody(c, 1, []) != Body(c.passcode, c.shortDiscriminator)
  {
    hide Padded;
    var a, b := LooseBody(c, 1, []), Body(c.passcode, c.shortDiscriminator);
    var x, y := (4 + c.shortDiscriminator % 4) * 0x4000 + c.passcode % 0x4000,
                c.shortDiscriminator % 4 * 0x4000 + c.passcode % 0x4000;
    ManualCode.Powers();
    PaddedReads(x, 5);
    PaddedReads(y, 5);
    hide Pow, Number;
    assert a[1..6] == Padded(x, 5) && b[1..6] == Padded(y, 5);
  }
}
