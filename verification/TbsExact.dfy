/** What a reader of X.509 certificates finds in the bytes a signature is made over
    (crates/mat-controller/src/cert.rs), RFC 5280 section 4.1. */
module TbsExact {
  import opened Wrappers
  import opened LittleEndian
  import opened Power
  import opened Der
  import opened Signatures
  import opened CertTime
  import opened Cms
  import opened Certificate
  import opened CertChain

  // ---------------------------------------------------------------- rows of items

  datatype Part = Part(tag: uint8, content: bytes)

  /** From `pos` to `end` stand exactly these items. */
  predicate Row(buf: bytes, pos: nat, ps: seq<Part>, end: nat)
    decreases |ps|
  {
    if ps == [] then pos == end
    else
      var r := ExpectAt(buf, pos, ps[0].tag);
      r.Ok? && r.value.0 == ps[0].content && Row(buf, r.value.1, ps[1..], end)
  }

  predicate WholeRow(buf: bytes, ps: seq<Part>) { Row(buf, 0, ps, |buf|) }

  predicate Short(ps: seq<Part>) { forall k :: 0 <= k < |ps| ==> |ps[k].content| <= MAX_LEN }

  function RowBytes(ps: seq<Part>): bytes
    requires Short(ps)
  {
    if ps == [] then [] else Tlv(ps[0].tag, ps[0].content) + RowBytes(ps[1..])
  }

  lemma {:induction false} RowReads(before: bytes, ps: seq<Part>)
    requires Short(ps)
    ensures Row(before + RowBytes(ps), |before|, ps, |before + RowBytes(ps)|)
    decreases |ps|
  {
    hide Tlv, ExpectAt;
    if ps != [] {
      var t, rest := Tlv(ps[0].tag, ps[0].content), RowBytes(ps[1..]);
      ExpectTlv(before, ps[0].tag, ps[0].content, rest);
      RowReads(before + t, ps[1..]);
      assert before + RowBytes(ps) == before + t + rest;
    } else {
      assert before + [] == before;
    }
  }

  lemma WholeReads(ps: seq<Part>)
    requires Short(ps)
    ensures WholeRow(RowBytes(ps), ps)
  {
    RowReads([], ps);
    assert [] + RowBytes(ps) == RowBytes(ps);
  }

  lemma OneReads(tag: uint8, content: bytes)
    requires |content| <= MAX_LEN
    ensures WholeRow(Tlv(tag, content), [Part(tag, content)])
  {
    hide Tlv, WholeRow;
    var ps := [Part(tag, content)];
    WholeReads(ps);
    assert ps[1..] == [] && RowBytes(ps) == Tlv(tag, content) + [] == Tlv(tag, content);
  }

  lemma TwoRead(a: Part, b: Part)
    requires |a.content| <= MAX_LEN && |b.content| <= MAX_LEN
    ensures WholeRow(Tlv(a.tag, a.content) + Tlv(b.tag, b.content), [a, b])
  {
    hide Tlv, WholeRow;
    WholeReads([a, b]);
    assert [a, b][1..] == [b] && [b][1..] == [];
    assert Tlv(b.tag, b.content) + [] == Tlv(b.tag, b.content);
    assert RowBytes([b]) == Tlv(b.tag, b.content) + RowBytes([]);
  }

  lemma ThreeRead(a: Part, b: Part, c: Part)
    requires |a.content| <= MAX_LEN && |b.content| <= MAX_LEN && |c.content| <= MAX_LEN
    ensures WholeRow(Tlv(a.tag, a.content) + (Tlv(b.tag, b.content) + Tlv(c.tag, c.content)), [a, b, c])
  {
    hide Tlv, WholeRow;
    WholeReads([a, b, c]);
    assert [a, b, c][1..] == [b, c] && [b, c][1..] == [c] && [c][1..] == [];
    assert Tlv(c.tag, c.content) + [] == Tlv(c.tag, c.content);
    assert RowBytes([c]) == Tlv(c.tag, c.content) + RowBytes([]);
    assert RowBytes([b, c]) == Tlv(b.tag, b.content) + RowBytes([c]);
  }

  lemma PutIs(tag: uint8, content: Option<bytes>)
    requires Put(tag, content).Some?
    ensures content.Some? && |content.value| <= MAX_LEN && Put(tag, content).value == Tlv(tag, content.value)
    ensures WholeRow(Put(tag, content).value, [Part(tag, content.value)])
  {
    OneReads(tag, content.value);
    hide Tlv, WholeRow;
  }

  /** The contents of items written one after the other. */
  ghost predicate RowOf<T>(xs: seq<T>, item: T -> Option<bytes>, tag: uint8, ps: seq<Part>) {
    |ps| == |xs| && forall k :: 0 <= k < |xs| ==> ps[k].tag == tag && |ps[k].content| <= MAX_LEN
                                                  && item(xs[k]) == Some(Tlv(tag, ps[k].content))
  }

  lemma {:induction false} RowSnoc(ps: seq<Part>, p: Part)
    requires Short(ps) && |p.content| <= MAX_LEN
    ensures Short(ps + [p]) && RowBytes(ps + [p]) == RowBytes(ps) + Tlv(p.tag, p.content)
    decreases |ps|
  {
    hide Tlv;
    var t := Tlv(p.tag, p.content);
    if ps == [] {
      assert [] + [p] == [p] && [p][1..] == [];
      assert RowBytes([p]) == t + RowBytes([]);
      assert t + [] == t && [] + t == t;
    } else {
      assert (ps + [p])[0] == ps[0] && (ps + [p])[1..] == ps[1..] + [p];
      RowSnoc(ps[1..], p);
      assert RowBytes(ps + [p]) == Tlv(ps[0].tag, ps[0].content) + (RowBytes(ps[1..]) + t);
    }
  }

  lemma {:induction false} ItemsRow<T>(xs: seq<T>, item: T -> Option<bytes>, tag: uint8, ps: seq<Part>)
    requires RowOf(xs, item, tag, ps)
    ensures Short(ps) && Items(xs, item) == Some(RowBytes(ps))
    decreases |xs|
  {
    hide Tlv;
    if xs != [] {
      var n := |xs| - 1;
      ItemsRow(xs[..n], item, tag, ps[..n]);
      RowSnoc(ps[..n], ps[n]);
      assert ps == ps[..n] + [ps[n]];
      assert item(xs[n]) == Some(Tlv(tag, ps[n].content));
    }
  }

  /** Every item was written if all of them were. */
  lemma {:induction false} EachItem<T>(xs: seq<T>, item: T -> Option<bytes>, k: nat)
    requires Items(xs, item).Some? && k < |xs|
    ensures item(xs[k]).Some?
    decreases |xs|
  {
    if k < |xs| - 1 { EachItem(xs[..|xs| - 1], item, k); }
  }

  // ---------------------------------------------------------------- names

  /** The value of an upper-case hexadecimal digit. */
  function HexDigit(c: uint8): int { if 48 <= c <= 57 then c - 48 else if 65 <= c <= 70 then c - 55 else -1 }

  /** The text spells the number in upper-case hexadecimal digits. */
  predicate HexSpells(text: bytes, v: nat)
    decreases |text|
  {
    if text == [] then v == 0
    else 0 <= HexDigit(text[|text| - 1]) == v % 16 && HexSpells(text[..|text| - 1], v / 16)
  }

  lemma {:induction false} HexReads(v: nat, n: nat)
    ensures HexSpells(Hex(v, n), v) && |Hex(v, n)| >= n && (v < Pow(16, n) ==> |Hex(v, n)| == n)
    decreases v + n
  {
    if v != 0 || n != 0 {
      var m := if n == 0 then 0 else n - 1;
      HexReads(v / 16, m);
      assert Hex(v, n)[..|Hex(v, n)| - 1] == Hex(v / 16, m);
      if n > 0 && v < Pow(16, n) { Sixteenth(v, Pow(16, m)); }
    }
  }

  lemma Sixteenth(v: nat, p: nat)
    requires v < 16 * p
    ensures v / 16 < p
  {
  }

  /** The object identifier, the string type and the text of an attribute: ids under their own object identifiers, as
      16 hexadecimal digits or, for tags, 8; names as UTF-8 or printable strings. */
  ghost predicate AttrIs(a: DnAttr, oid: bytes, stringType: uint8, text: bytes) {
    var base := a.tlvTag % 0x80;
    match a.value
    case MatterId(id) =>
      && 17 <= base <= 22 && oid == [0x2B, 0x06, 0x01, 0x04, 0x01, 0x82, 0xA2, 0x7C, 0x01, base - 16]
      && stringType == 0x0C && HexSpells(text, id)
      && |text| >= (if base == 22 then 8 else 16)
      && (id < Pow(16, if base == 22 then 8 else 16) ==> |text| == if base == 22 then 8 else 16)
    case Text(t) =>
      base == 1 && oid == [0x55, 0x04, 0x03] && text == t && stringType == if a.tlvTag >= 0x80 then 0x13 else 0x0C
  }

  /** The attribute alone in its set. */
  ghost predicate RdnIs(rdn: bytes, a: DnAttr) {
    exists atv: bytes, oid: bytes, stringType: uint8, text: bytes ::
      WholeRow(rdn, [Part(0x30, atv)]) && WholeRow(atv, [Part(0x06, oid), Part(stringType, text)])
      && AttrIs(a, oid, stringType, text)
  }

  /** The sets of a name, in order. */
  ghost predicate NameIs(name: bytes, attrs: seq<DnAttr>) {
    exists ps: seq<Part> ::
      WholeRow(name, ps) && |ps| == |attrs|
      && forall k :: 0 <= k < |ps| ==> ps[k].tag == 0x31 && RdnIs(ps[k].content, attrs[k])
  }

  lemma AttrParts(a: DnAttr) returns (oid: bytes, stringType: uint8, text: bytes)
    requires DnAttrDer(a).Some?
    ensures AttrIs(a, oid, stringType, text)
    ensures DnAttrDer(a) == Put(SEQUENCE, Both(Leaf(OID, oid), Leaf(stringType, text)))
  {
    hide Hex, HexSpells, Put, Both, Pow;
    var base := a.tlvTag % 0x80;
    stringType := if a.value.Text? && a.tlvTag >= 0x80 then 0x13 else 0x0C;
    if a.value.MatterId? {
      oid, text := MatterOid(base), Hex(a.value.id, if base == 22 then 8 else 16);
      HexReads(a.value.id, if base == 22 then 8 else 16);
    } else {
      oid, text := COMMON_NAME, a.value.text;
    }
  }

  lemma AttrReads(a: DnAttr) returns (rdn: bytes)
    requires RdnDer(a).Some?
    ensures |rdn| <= MAX_LEN && RdnDer(a) == Some(Tlv(0x31, rdn)) && RdnIs(rdn, a)
  {
    hide DnAttrDer, AttrIs, WholeRow, Tlv;
    PutIs(SET, DnAttrDer(a));
    rdn := DnAttrDer(a).value;
    var oid, stringType, text := AttrParts(a);
    PutIs(SEQUENCE, Both(Leaf(OID, oid), Leaf(stringType, text)));
    TwoRead(Part(OID, oid), Part(stringType, text));
  }

  lemma NameReads(attrs: seq<DnAttr>) returns (name: bytes)
    requires Items(attrs, RdnDer).Some?
    ensures Items(attrs, RdnDer) == Some(name) && NameIs(name, attrs)
  {
    hide Tlv, RdnIs, WholeRow, RdnDer;
    var ps: seq<Part> := [];
    for k := 0 to |attrs|
      invariant |ps| == k
      invariant forall j :: 0 <= j < k ==> ps[j].tag == 0x31 && |ps[j].content| <= MAX_LEN && RdnIs(ps[j].content, attrs[j])
                                           && RdnDer(attrs[j]) == Some(Tlv(0x31, ps[j].content))
    {
      EachItem(attrs, RdnDer, k);
      var rdn := AttrReads(attrs[k]);
      ps := ps + [Part(0x31, rdn)];
    }
    ItemsRow(attrs, RdnDer, 0x31, ps);
    WholeReads(ps);
    name := RowBytes(ps);
  }

  // ---------------------------------------------------------------- extensions

  /** Bit `i` of a number. */
  predicate BitSet(n: nat, i: nat) { n / Pow(2, i) % 2 == 1 }

  lemma MirrorStep(bits: nat, w: nat)
    ensures Mirror(bits, Pow(2, w))
            == (if bits % 2 == 1 then Pow(2, w) else 0) + if w == 0 then 0 else Mirror(bits / 2, Pow(2, w - 1))
    ensures Mirror(bits, Pow(2, w)) < 2 * Pow(2, w)
  {
    var p := Pow(2, w);
    if w == 0 {
      assert Mirror(bits / 2, 0) == 0;
    } else {
      assert p == 2 * Pow(2, w - 1) && p / 2 == Pow(2, w - 1);
    }
  }

  lemma {:induction false} MirrorBit(bits: nat, w: nat, i: nat)
    requires i <= w
    ensures BitSet(Mirror(bits, Pow(2, w)), w - i) <==> BitSet(bits, i)
    decreases w
  {
    hide Mirror, BitSet;
    MirrorStep(bits, w);
    if i == 0 {
      FirstBit(bits);
      if w > 0 { MirrorStep(bits / 2, w - 1); }
      HighBit(bits % 2, if w == 0 then 0 else Mirror(bits / 2, Pow(2, w - 1)), w);
    } else {
      MirrorBit(bits / 2, w - 1, i - 1);
      LowBit(bits, Mirror(bits / 2, Pow(2, w - 1)), w, i);
    }
  }

  lemma FirstBit(bits: nat)
    ensures BitSet(bits, 0) <==> bits % 2 == 1
  {
    assert Pow(2, 0) == 1;
  }

  lemma HighBit(b: nat, rest: nat, w: nat)
    requires b < 2 && rest < Pow(2, w)
    ensures BitSet((if b == 1 then Pow(2, w) else 0) + rest, w) <==> b == 1
  {
    TopBit(b, rest, Pow(2, w));
  }

  lemma TopBit(b: nat, rest: nat, p: nat)
    requires b < 2 && rest < p
    ensures ((if b == 1 then p else 0) + rest) / p % 2 == b
  {
    if b == 1 { assert (p + rest) / p == 1; } else { assert rest / p == 0; }
  }

  lemma LowBit(bits: nat, rest: nat, w: nat, i: nat)
    requires 0 < i <= w
    ensures BitSet((if bits % 2 == 1 then Pow(2, w) else 0) + rest, w - i) <==> BitSet(rest, w - i)
    ensures BitSet(bits, i) <==> BitSet(bits / 2, i - 1)
  {
    var q := Pow(2, w - i);
    Pow2Add(w - i, i);
    assert Pow(2, i) == 2 * Pow(2, i - 1);
    var half := Pow(2, i - 1);
    DivDiv(bits, 2, half);
    AddEven(rest, q, half);
  }

  lemma AddEven(rest: nat, q: nat, half: nat)
    requires q > 0
    ensures (q * (2 * half) + rest) / q % 2 == rest / q % 2
  {
    var a, b := rest / q, rest % q;
    assert q * (2 * half) + rest == q * (2 * half + a) + b;
    DivideIs(q * (2 * half) + rest, q, 2 * half + a);
    assert (2 * half + a) % 2 == a % 2;
  }

  /** A key usage as a named bit list: bit `i` of the usage is the `i`-th bit, the first being the highest of its byte;
      the first byte is none of them. */
  ghost predicate NamedBits(content: bytes, bits: uint16) {
    content != []
    && forall i: nat :: i < 16 ==>
         (BitSet(bits, i) <==> 1 + i / 8 < |content| && BitSet(content[1 + i / 8], 7 - i % 8))
  }

  lemma ByteBit(b: nat, i: nat)
    requires i < 8
    ensures BitSet(UsageByte(b), 7 - i) <==> BitSet(b, i)
  {
    hide BitSet, Mirror;
    assert Pow(2, 7) == 0x80 by { assert Pow(2, 4) == 16; }
    MirrorBit(b, 7, i);
  }

  /** The bits of a number are those of its two halves. */
  lemma BitOfHalf(bits: uint16, i: nat)
    requires i < 16
    ensures BitSet(bits, i) <==> if i < 8 then BitSet(bits % 0x100, i) else BitSet(bits / 0x100, i - 8)
  {
    assert Pow(2, 8) == 0x100 by { assert Pow(2, 4) == 16; }
    if i < 8 {
      var lo, hi, q, r := bits % 0x100, bits / 0x100, Pow(2, i), Pow(2, 7 - i);
      Pow2Add(i, 8 - i);
      assert Pow(2, 8 - i) == 2 * r;
      assert bits == q * (2 * (r * hi)) + lo by { assert q * (2 * (r * hi)) == q * (2 * r) * hi; }
      AddEven(lo, q, r * hi);
    } else {
      Pow2Add(8, i - 8);
      DivDiv(bits, 0x100, Pow(2, i - 8));
    }
  }

  lemma NoBits(i: nat)
    ensures !BitSet(0, i)
  {
    assert 0 / Pow(2, i) == 0 by { DivideIs(0, Pow(2, i), 0); }
  }

  lemma UsageStands(bits: uint16)
    ensures NamedBits(UsageBits(bits), bits)
  {
    hide BitSet, UsageByte, Unused;
    var content := UsageBits(bits);
    forall i: nat | i < 16
      ensures BitSet(bits, i) <==> 1 + i / 8 < |content| && BitSet(content[1 + i / 8], 7 - i % 8)
    {
      BitOfHalf(bits, i);
      NoBits(i);
      NoBits(i % 8);
      ByteBit(bits % 0x100, i % 8);
      ByteBit(bits / 0x100, i % 8);
    }
  }

  function Purpose(p: uint64): bytes
    requires 1 <= p <= 6
  {
    [0x2B, 0x06, 0x01, 0x05, 0x05, 0x07, 0x03, if p <= 4 then p else p + 3]
  }

  /** The value of an extension. */
  ghost predicate ValueIs(e: CertExtension, val: bytes) {
    match e
    case BasicConstraints(isCa, pathLen) =>
      exists inner: bytes :: WholeRow(val, [Part(0x30, inner)])
        && WholeRow(inner, (if isCa then [Part(0x01, [0xFF])] else [])
                           + (if pathLen.Some? then [Part(0x02, [pathLen.value])] else []))
    case KeyUsage(bits) => exists list: bytes :: WholeRow(val, [Part(0x03, list)]) && NamedBits(list, bits)
    case ExtendedKeyUsage(ps) =>
      exists list: bytes, parts: seq<Part> ::
        WholeRow(val, [Part(0x30, list)]) && WholeRow(list, parts) && |parts| == |ps|
        && forall k :: 0 <= k < |ps| ==> 1 <= ps[k] <= 6 && parts[k] == Part(0x06, Purpose(ps[k]))
    case SubjectKeyId(id) => WholeRow(val, [Part(0x04, id)])
    case AuthorityKeyId(id) =>
      exists inner: bytes :: WholeRow(val, [Part(0x30, inner)]) && WholeRow(inner, [Part(0x80, id)])
  }

  function ExtOid(e: CertExtension): bytes {
    [0x55, 0x1D, match e
                 case BasicConstraints(_, _) => 0x13
                 case KeyUsage(_) => 0x0F
                 case ExtendedKeyUsage(_) => 0x25
                 case SubjectKeyId(_) => 0x0E
                 case AuthorityKeyId(_) => 0x23]
  }

  /** An extension: its object identifier, whether it is critical, and its value in an octet string. The key ids are
      not critical, all others are. */
  ghost predicate ExtIs(ext: bytes, e: CertExtension) {
    exists val: bytes ::
      ValueIs(e, val)
      && WholeRow(ext, [Part(0x06, ExtOid(e))]
                       + (if e.SubjectKeyId? || e.AuthorityKeyId? then [] else [Part(0x01, [0xFF])]) + [Part(0x04, val)])
  }

  lemma CriticalReads(oid: bytes, val: bytes)
    requires |oid| <= MAX_LEN && |val| <= MAX_LEN
    ensures Both(Leaf(OID, oid), Both(Critical(), Leaf(OCTETS, val))).Some?
    ensures WholeRow(Both(Leaf(OID, oid), Both(Critical(), Leaf(OCTETS, val))).value,
                     [Part(0x06, oid), Part(0x01, [0xFF]), Part(0x04, val)])
  {
    hide Tlv, WholeRow;
    ThreeRead(Part(OID, oid), Part(0x01, [0xFF]), Part(OCTETS, val));
  }

  lemma PlainReads(oid: bytes, val: bytes)
    requires |oid| <= MAX_LEN && |val| <= MAX_LEN
    ensures Both(Leaf(OID, oid), Leaf(OCTETS, val)).Some?
    ensures WholeRow(Both(Leaf(OID, oid), Leaf(OCTETS, val)).value, [Part(0x06, oid), Part(0x04, val)])
  {
    hide Tlv, WholeRow;
    TwoRead(Part(OID, oid), Part(OCTETS, val));
  }

  lemma BasicReads(isCa: bool, pathLen: Option<uint8>)
    ensures var inner := Both(if isCa then Leaf(0x01, [0xFF]) else Some([]),
                              if pathLen.Some? then Leaf(INTEGER, [pathLen.value]) else Some([]));
            inner.Some? && WholeRow(inner.value, (if isCa then [Part(0x01, [0xFF])] else [])
                                                 + (if pathLen.Some? then [Part(0x02, [pathLen.value])] else []))
  {
    hide Tlv, WholeRow;
    var ps := (if isCa then [Part(0x01, [0xFF])] else []) + (if pathLen.Some? then [Part(0x02, [pathLen.value])] else []);
    if isCa && pathLen.Some? {
      TwoRead(Part(0x01, [0xFF]), Part(0x02, [pathLen.value]));
      assert ps == [Part(0x01, [0xFF]), Part(0x02, [pathLen.value])];
    } else if isCa {
      OneReads(0x01, [0xFF]);
      assert ps == [Part(0x01, [0xFF])];
      assert Tlv(0x01, [0xFF]) + [] == Tlv(0x01, [0xFF]);
    } else if pathLen.Some? {
      OneReads(0x02, [pathLen.value]);
      assert ps == [Part(0x02, [pathLen.value])];
      assert [] + Tlv(INTEGER, [pathLen.value]) == Tlv(0x02, [pathLen.value]);
    } else {
      WholeReads([]);
      assert ps == [];
    }
  }

  lemma PurposesRead(ps: seq<uint64>) returns (parts: seq<Part>)
    requires Items(ps, PurposeDer).Some?
    ensures WholeRow(Items(ps, PurposeDer).value, parts) && |parts| == |ps|
    ensures forall k :: 0 <= k < |ps| ==> 1 <= ps[k] <= 6 && parts[k] == Part(0x06, Purpose(ps[k]))
  {
    hide Tlv, WholeRow;
    parts := [];
    for k := 0 to |ps|
      invariant |parts| == k
      invariant forall j :: 0 <= j < k ==> 1 <= ps[j] <= 6 && parts[j] == Part(0x06, Purpose(ps[j]))
      invariant forall j :: 0 <= j < k ==> PurposeDer(ps[j]) == Some(Tlv(0x06, parts[j].content))
    {
      EachItem(ps, PurposeDer, k);
      parts := parts + [Part(0x06, Purpose(ps[k]))];
    }
    ItemsRow(ps, PurposeDer, 0x06, parts);
    WholeReads(parts);
  }

  /** The value of an extension as it is written. */
  function ValueDer(e: CertExtension): Option<bytes> {
    match e
    case BasicConstraints(isCa, pathLen) =>
      Put(SEQUENCE, Both(if isCa then Leaf(0x01, [0xFF]) else Some([]),
                         if pathLen.Some? then Leaf(INTEGER, [pathLen.value]) else Some([])))
    case KeyUsage(bits) => Leaf(0x03, UsageBits(bits))
    case ExtendedKeyUsage(ps) => Put(SEQUENCE, Items(ps, PurposeDer))
    case SubjectKeyId(id) => Leaf(OCTETS, id)
    case AuthorityKeyId(id) => Put(SEQUENCE, Leaf(PRIMITIVE0, id))
  }

  lemma ValueReads(e: CertExtension)
    requires ValueDer(e).Some?
    ensures ValueIs(e, ValueDer(e).value)
  {
    hide Tlv, WholeRow, NamedBits, Items, UsageBits, Both;
    match e
    case BasicConstraints(isCa, pathLen) =>
      var inner := Both(if isCa then Leaf(0x01, [0xFF]) else Some([]),
                        if pathLen.Some? then Leaf(INTEGER, [pathLen.value]) else Some([]));
      BasicReads(isCa, pathLen);
      PutIs(SEQUENCE, inner);
    case KeyUsage(bits) =>
      UsageStands(bits);
      PutIs(0x03, Some(UsageBits(bits)));
    case ExtendedKeyUsage(ps) =>
      PutIs(SEQUENCE, Items(ps, PurposeDer));
      var parts := PurposesRead(ps);
    case SubjectKeyId(id) => PutIs(OCTETS, Some(id));
    case AuthorityKeyId(id) =>
      PutIs(PRIMITIVE0, Some(id));
      PutIs(SEQUENCE, Leaf(PRIMITIVE0, id));
  }

  lemma ExtInParts(e: CertExtension)
    ensures ExtDer(e) == Put(SEQUENCE, if e.SubjectKeyId? || e.AuthorityKeyId? then
                                         Both(Leaf(OID, ExtOid(e)), Put(OCTETS, ValueDer(e)))
                                       else Both(Leaf(OID, ExtOid(e)), Both(Critical(), Put(OCTETS, ValueDer(e)))))
  {
    hide Put, Both, Items, UsageBits;
  }

  lemma ExtReads(e: CertExtension) returns (ext: bytes)
    requires ExtDer(e).Some?
    ensures |ext| <= MAX_LEN && ExtDer(e) == Some(Tlv(0x30, ext)) && ExtIs(ext, e)
  {
    hide ExtDer, Tlv, WholeRow, ValueDer, ValueIs;
    ExtInParts(e);
    var plain := e.SubjectKeyId? || e.AuthorityKeyId?;
    var parts := if plain then Both(Leaf(OID, ExtOid(e)), Put(OCTETS, ValueDer(e)))
                 else Both(Leaf(OID, ExtOid(e)), Both(Critical(), Put(OCTETS, ValueDer(e))));
    PutIs(SEQUENCE, parts);
    ext := parts.value;
    var val := ValueDer(e).value;
    ValueReads(e);
    if plain {
      PlainReads(ExtOid(e), val);
      assert [Part(0x06, ExtOid(e))] + [] + [Part(0x04, val)] == [Part(0x06, ExtOid(e)), Part(0x04, val)];
    } else {
      CriticalReads(ExtOid(e), val);
      assert [Part(0x06, ExtOid(e))] + [Part(0x01, [0xFF])] + [Part(0x04, val)]
             == [Part(0x06, ExtOid(e)), Part(0x01, [0xFF]), Part(0x04, val)];
    }
  }

  /** Extensions in their order. */
  ghost predicate ExtsAre(list: bytes, es: seq<CertExtension>) {
    exists ps: seq<Part> ::
      WholeRow(list, ps) && |ps| == |es| && forall k :: 0 <= k < |ps| ==> ps[k].tag == 0x30 && ExtIs(ps[k].content, es[k])
  }

  lemma ExtsRead(es: seq<CertExtension>)
    requires Items(es, ExtDer).Some?
    ensures ExtsAre(Items(es, ExtDer).value, es)
  {
    hide Tlv, ExtIs, WholeRow, ExtDer;
    var ps: seq<Part> := [];
    for k := 0 to |es|
      invariant |ps| == k
      invariant forall j :: 0 <= j < k ==> ps[j].tag == 0x30 && |ps[j].content| <= MAX_LEN && ExtIs(ps[j].content, es[j])
                                           && ExtDer(es[j]) == Some(Tlv(0x30, ps[j].content))
    {
      EachItem(es, ExtDer, k);
      var ext := ExtReads(es[k]);
      ps := ps + [Part(0x30, ext)];
    }
    ItemsRow(es, ExtDer, 0x30, ps);
    WholeReads(ps);
  }

  // ---------------------------------------------------------------- the signed bytes

  /** The eight parts of what is signed, as RFC 5280 orders them: version 3, serial number, signature algorithm,
      issuer, validity, subject, public key and extensions. */
  ghost predicate TbsIs(c: MatterCert, b: bytes) {
    exists body: bytes, issuer: bytes, subject: bytes, spki: bytes, exts: bytes, list: bytes, algorithm: bytes ::
      && WholeRow(b, [Part(0x30, body)])
      && WholeRow(body, [Part(0xA0, [0x02, 0x01, 0x02]), Part(0x02, c.serial),
                         Part(0x30, [0x06, 0x08, 0x2A, 0x86, 0x48, 0xCE, 0x3D, 0x04, 0x03, 0x02]), Part(0x30, issuer),
                         Part(0x30, Asn1Time(c.notBefore) + Asn1Time(c.notAfter)), Part(0x30, subject),
                         Part(0x30, spki), Part(0xA3, exts)])
      && NameIs(issuer, c.issuer) && NameIs(subject, c.subject)
      && WholeRow(spki, [Part(0x30, algorithm), Part(0x03, [0] + c.pubKey)])
      && WholeRow(algorithm, [Part(0x06, [0x2A, 0x86, 0x48, 0xCE, 0x3D, 0x02, 0x01]),
                              Part(0x06, [0x2A, 0x86, 0x48, 0xCE, 0x3D, 0x03, 0x01, 0x07])])
      && WholeRow(exts, [Part(0x30, list)]) && ExtsAre(list, c.extensions)
  }

  lemma Unrolled(ps: seq<Part>, k: nat)
    requires Short(ps) && k < |ps|
    ensures RowBytes(ps[k..]) == Tlv(ps[k].tag, ps[k].content) + RowBytes(ps[k + 1..])
  {
    hide Tlv;
    assert ps[k..][1..] == ps[k + 1..];
  }

  lemma Constants()
    ensures Leaf(INTEGER, [2]) == Some([0x02, 0x01, 0x02])
    ensures Leaf(OID, ECDSA_WITH_SHA256) == Some([0x06, 0x08, 0x2A, 0x86, 0x48, 0xCE, 0x3D, 0x04, 0x03, 0x02])
  {
    assert Tlv(INTEGER, [2]) == [0x02, 0x01, 0x02];
    assert Tlv(OID, ECDSA_WITH_SHA256) == [0x06, 0x08, 0x2A, 0x86, 0x48, 0xCE, 0x3D, 0x04, 0x03, 0x02];
  }

  function Spki(c: MatterCert): Option<bytes> {
    Both(Put(SEQUENCE, Both(Leaf(OID, EC_PUBLIC_KEY), Leaf(OID, PRIME256V1))), Leaf(0x03, [0] + c.pubKey))
  }

  /** The parts as they are written. */
  lemma TbsInParts(c: MatterCert) returns (ps: seq<Part>)
    requires TbsDer(c).Some?
    ensures Items(c.issuer, RdnDer).Some? && Items(c.subject, RdnDer).Some? && Items(c.extensions, ExtDer).Some?
    ensures Spki(c).Some? && Put(SEQUENCE, Items(c.extensions, ExtDer)).Some?
    ensures |ps| == 8 && Short(ps)
    ensures ps == [Part(0xA0, [0x02, 0x01, 0x02]), Part(0x02, c.serial),
                   Part(0x30, [0x06, 0x08, 0x2A, 0x86, 0x48, 0xCE, 0x3D, 0x04, 0x03, 0x02]),
                   Part(0x30, Items(c.issuer, RdnDer).value),
                   Part(0x30, Asn1Time(c.notBefore) + Asn1Time(c.notAfter)),
                   Part(0x30, Items(c.subject, RdnDer).value), Part(0x30, Spki(c).value),
                   Part(0xA3, Put(SEQUENCE, Items(c.extensions, ExtDer)).value)]
    ensures TbsDer(c) == Put(SEQUENCE, Some(RowBytes(ps)))
  {
    hide Items, Asn1Time, Tlv;
    Constants();
    ps := [Part(0xA0, [0x02, 0x01, 0x02]), Part(0x02, c.serial),
           Part(0x30, [0x06, 0x08, 0x2A, 0x86, 0x48, 0xCE, 0x3D, 0x04, 0x03, 0x02]),
           Part(0x30, Items(c.issuer, RdnDer).value),
           Part(0x30, Asn1Time(c.notBefore) + Asn1Time(c.notAfter)),
           Part(0x30, Items(c.subject, RdnDer).value), Part(0x30, Spki(c).value),
           Part(0xA3, Put(SEQUENCE, Items(c.extensions, ExtDer)).value)];
    assert Short(ps);
    Unrolled(ps, 0); Unrolled(ps, 1); Unrolled(ps, 2); Unrolled(ps, 3);
    Unrolled(ps, 4); Unrolled(ps, 5); Unrolled(ps, 6); Unrolled(ps, 7);
    assert ps[0..] == ps && ps[8..] == [];
    assert Tlv(ps[7].tag, ps[7].content) + [] == Tlv(ps[7].tag, ps[7].content);
  }

  /** A reader finds in the signed bytes what the certificate says. */
  lemma TbsReads(c: MatterCert)
    requires TbsDer(c).Some?
    ensures TbsIs(c, TbsDer(c).value)
  {
    hide TbsDer, WholeRow, NameIs, ExtsAre, Tlv, Asn1Time, Items, RdnDer, ExtDer;
    var ps := TbsInParts(c);
    PutIs(SEQUENCE, Some(RowBytes(ps)));
    WholeReads(ps);
    var issuer := NameReads(c.issuer);
    var subject := NameReads(c.subject);
    ExtsRead(c.extensions);
    PutIs(SEQUENCE, Items(c.extensions, ExtDer));
    var algorithm := Both(Leaf(OID, EC_PUBLIC_KEY), Leaf(OID, PRIME256V1));
    PutIs(SEQUENCE, algorithm);
    TwoRead(Part(OID, EC_PUBLIC_KEY), Part(OID, PRIME256V1));
    TwoRead(Part(SEQUENCE, algorithm.value), Part(0x03, [0] + c.pubKey));
  }
}
