/** What the signature of a certificate covers (crates/mat-controller/src/cert.rs): two certificates have the same
    signed bytes only if they say the same. */
module CertSigned {
  import opened Wrappers
  import opened LittleEndian
  import opened Calendar
  import opened Der
  import opened Signatures
  import opened CertTime
  import opened Cms
  import opened Certificate
  import opened CertChain

  // ---------------------------------------------------------------- taking encodings apart

  /** Two texts that begin with an item begin with the same one, and go on in the same way. */
  lemma HeadSame(t: uint8, c: bytes, r: bytes, u: uint8, d: bytes, s: bytes)
    requires |c| <= MAX_LEN && |d| <= MAX_LEN && Tlv(t, c) + r == Tlv(u, d) + s
    ensures t == u && c == d && r == s
  {
    hide Tlv, ReadItem;
    var buf := Tlv(t, c) + r;
    assert buf[..|Tlv(t, c)|] == Tlv(t, c) && buf[|Tlv(t, c)|..] == r;
    assert buf[..|Tlv(u, d)|] == Tlv(u, d) && buf[|Tlv(u, d)|..] == s;
    ReadTlv(buf, 0, t, c);
    ReadTlv(buf, 0, u, d);
  }

  lemma PutSame(t: uint8, a: Option<bytes>, u: uint8, b: Option<bytes>)
    requires Put(t, a).Some? && Put(t, a) == Put(u, b)
    ensures t == u && a == b
  {
    hide Tlv;
    assert Tlv(t, a.value) + [] == Tlv(u, b.value) + [];
    HeadSame(t, a.value, [], u, b.value, []);
  }

  lemma BothSame(t: uint8, a: Option<bytes>, x: Option<bytes>, u: uint8, b: Option<bytes>, y: Option<bytes>)
    requires Both(Put(t, a), x).Some? && Both(Put(t, a), x) == Both(Put(u, b), y)
    ensures t == u && a == b && x == y
    ensures a.Some? && x.Some?
  {
    hide Tlv;
    HeadSame(t, a.value, x.value, u, b.value, y.value);
  }

  // ---------------------------------------------------------------- lists of items

  /** The encoding of an item, unless it has none. */
  ghost predicate IsItem(x: Option<bytes>) {
    x.Some? ==> exists t: uint8, c: bytes :: |c| <= MAX_LEN && x == Some(Tlv(t, c))
  }

  lemma PutIsItem(t: uint8, c: Option<bytes>)
    ensures IsItem(Put(t, c))
  {
    hide Tlv;
  }

  lemma {:induction false} ItemsCons<T>(x: T, xs: seq<T>, item: T -> Option<bytes>)
    ensures Items([x] + xs, item) == Both(item(x), Items(xs, item))
  {
    if xs == [] {
      assert [x] + xs == [x] && [x][..0] == [];
      assert item(x).Some? ==> [] + item(x).value == item(x).value + [];
    } else {
      var n := |xs| - 1;
      ItemsCons(x, xs[..n], item);
      assert ([x] + xs)[..n + 1] == [x] + xs[..n] && ([x] + xs)[n + 1] == xs[n];
      BothAssoc(item(x), Items(xs[..n], item), item(xs[n]));
    }
  }

  lemma BothAssoc(a: Option<bytes>, b: Option<bytes>, c: Option<bytes>)
    ensures Both(Both(a, b), c) == Both(a, Both(b, c))
  {
    if a.Some? && b.Some? && c.Some? {
      assert (a.value + b.value) + c.value == a.value + (b.value + c.value);
    }
  }

  lemma TlvIsSome(t: uint8, c: bytes)
    requires |c| <= MAX_LEN
    ensures Tlv(t, c) != []
  {
  }

  /** Lists of items with the same encoding have the same items. */
  lemma {:induction false} ItemsSame<T>(xs: seq<T>, ys: seq<T>, item: T -> Option<bytes>)
    requires forall x: T :: IsItem(item(x))
    requires Items(xs, item).Some? && Items(xs, item) == Items(ys, item)
    ensures |xs| == |ys| && forall k :: 0 <= k < |xs| ==> item(xs[k]).Some? && item(xs[k]) == item(ys[k])
    decreases |xs|
  {
    hide Tlv, Items;
    if xs != [] {
      assert [xs[0]] + xs[1..] == xs;
      ItemsCons(xs[0], xs[1..], item);
      FirstItem(xs[0], item);
    }
    if ys != [] {
      assert [ys[0]] + ys[1..] == ys;
      ItemsCons(ys[0], ys[1..], item);
      FirstItem(ys[0], item);
    }
    NoItems(item);
    if xs != [] && ys != [] {
      var t: uint8, c: bytes :| |c| <= MAX_LEN && item(xs[0]) == Some(Tlv(t, c));
      var u: uint8, d: bytes :| |d| <= MAX_LEN && item(ys[0]) == Some(Tlv(u, d));
      HeadSame(t, c, Items(xs[1..], item).value, u, d, Items(ys[1..], item).value);
      ItemsSame(xs[1..], ys[1..], item);
      forall k | 0 <= k < |xs|
        ensures item(xs[k]).Some? && item(xs[k]) == item(ys[k])
      {
        if k > 0 { assert xs[k] == xs[1..][k - 1] && ys[k] == ys[1..][k - 1]; }
      }
    }
  }

  lemma NoItems<T>(item: T -> Option<bytes>)
    ensures Items([], item) == Some([])
  {
  }

  lemma FirstItem<T>(x: T, item: T -> Option<bytes>)
    requires IsItem(item(x))
    ensures item(x).Some? ==> item(x).value != []
  {
    hide Tlv;
    if item(x).Some? {
      var t: uint8, c: bytes :| |c| <= MAX_LEN && item(x) == Some(Tlv(t, c));
      TlvIsSome(t, c);
    }
  }

  /** Equal items encode to the same text. */
  lemma {:induction false} ItemsEqual<T>(xs: seq<T>, ys: seq<T>, item: T -> Option<bytes>)
    requires |xs| == |ys| && forall k :: 0 <= k < |xs| ==> item(xs[k]) == item(ys[k])
    ensures Items(xs, item) == Items(ys, item)
    decreases |xs|
  {
    if xs != [] { ItemsEqual(xs[..|xs| - 1], ys[..|ys| - 1], item); }
  }

  // ---------------------------------------------------------------- names

  lemma {:induction false} HexSame(v: nat, w: nat, n: nat)
    requires Hex(v, n) == Hex(w, n)
    ensures v == w
    decreases v + n
  {
    var h, g := Hex(v, n), Hex(w, n);
    if h != [] {
      var m := if n == 0 then 0 else n - 1;
      assert h[..|h| - 1] == Hex(v / 16, m) && g[..|g| - 1] == Hex(w / 16, m);
      assert h[|h| - 1] == g[|g| - 1];
      HexSame(v / 16, w / 16, m);
    }
  }

  /** The same attribute, as far as a name in DER goes: the highest bit of the tag of an id is not written. */
  predicate SameAttr(a: DnAttr, b: DnAttr) {
    a.value == b.value && if a.value.MatterId? then a.tlvTag % 0x80 == b.tlvTag % 0x80 else a.tlvTag == b.tlvTag
  }

  predicate SameName(a: seq<DnAttr>, b: seq<DnAttr>) {
    |a| == |b| && forall k :: 0 <= k < |a| ==> SameAttr(a[k], b[k])
  }

  lemma AttrSame(a: DnAttr, b: DnAttr)
    requires DnAttrDer(a).Some?
    ensures DnAttrDer(a) == DnAttrDer(b) <==> SameAttr(a, b)
  {
    hide Put, Both, Hex;
    if DnAttrDer(a) == DnAttrDer(b) {
      var x, y := a.tlvTag % 0x80, b.tlvTag % 0x80;
      var oidA := if a.value.MatterId? then MatterOid(x) else COMMON_NAME;
      var oidB := if b.value.MatterId? then MatterOid(y) else COMMON_NAME;
      var tagA: uint8 := if a.value.Text? && a.tlvTag >= 0x80 then 0x13 else 0x0C;
      var tagB: uint8 := if b.value.Text? && b.tlvTag >= 0x80 then 0x13 else 0x0C;
      var textA := if a.value.MatterId? then Hex(a.value.id, if x == 22 then 8 else 16) else a.value.text;
      var textB := if b.value.MatterId? then Hex(b.value.id, if y == 22 then 8 else 16) else b.value.text;
      PairSame(oidA, tagA, textA, oidB, tagB, textB);
      assert |COMMON_NAME| == 3 && (a.value.MatterId? ==> |oidA| == 10) && (b.value.MatterId? ==> |oidB| == 10);
      if a.value.MatterId? {
        assert oidA[9] == oidB[9];
        HexSame(a.value.id, b.value.id, if x == 22 then 8 else 16);
      }
    }
  }

  lemma PairSame(o: bytes, t: uint8, c: bytes, p: bytes, u: uint8, d: bytes)
    requires Put(SEQUENCE, Both(Leaf(OID, o), Leaf(t, c))).Some?
    requires Put(SEQUENCE, Both(Leaf(OID, o), Leaf(t, c))) == Put(SEQUENCE, Both(Leaf(OID, p), Leaf(u, d)))
    ensures o == p && t == u && c == d
  {
    PutSame(SEQUENCE, Both(Leaf(OID, o), Leaf(t, c)), SEQUENCE, Both(Leaf(OID, p), Leaf(u, d)));
    PutNeeds(SEQUENCE, Both(Leaf(OID, o), Leaf(t, c)));
    hide Put;
    BothSame(OID, Some(o), Leaf(t, c), OID, Some(p), Leaf(u, d));
    PutSame(t, Some(c), u, Some(d));
  }

  lemma PutNeeds(t: uint8, c: Option<bytes>)
    ensures Put(t, c).Some? ==> c.Some?
  {
  }

  lemma RdnSame(a: DnAttr, b: DnAttr)
    requires RdnDer(a).Some?
    ensures RdnDer(a) == RdnDer(b) <==> SameAttr(a, b)
  {
    hide DnAttrDer;
    PutNeeds(SET, DnAttrDer(a));
    if RdnDer(a) == RdnDer(b) { PutSame(SET, DnAttrDer(a), SET, DnAttrDer(b)); }
    hide Put;
    AttrSame(a, b);
  }

  /** Two names are written the same exactly if their attributes are the same, one by one. */
  lemma NameSame(a: seq<DnAttr>, b: seq<DnAttr>)
    requires Items(a, RdnDer).Some?
    ensures Items(a, RdnDer) == Items(b, RdnDer) <==> SameName(a, b)
  {
    hide RdnDer, SameAttr, Items;
    forall x: DnAttr
      ensures IsItem(RdnDer(x))
    {
      RdnIsItem(x);
    }
    if Items(a, RdnDer) == Items(b, RdnDer) {
      ItemsSame(a, b, RdnDer);
      forall k | 0 <= k < |a|
        ensures SameAttr(a[k], b[k])
      {
        RdnSame(a[k], b[k]);
      }
    }
    if SameName(a, b) {
      ItemsSame(a, a, RdnDer);
      forall k | 0 <= k < |a|
        ensures RdnDer(a[k]) == RdnDer(b[k])
      {
        RdnSame(a[k], b[k]);
      }
      ItemsEqual(a, b, RdnDer);
    }
  }

  lemma RdnIsItem(x: DnAttr)
    ensures IsItem(RdnDer(x))
  {
    hide DnAttrDer, Put, IsItem;
    PutIsItem(SET, DnAttrDer(x));
  }

  // ---------------------------------------------------------------- extensions

  /** The numbers `Mirror` has enough weights for. */
  function Cap(weight: nat): nat
    decreases weight
  {
    if weight == 0 then 1 else 2 * Cap(weight / 2)
  }

  lemma {:induction false} MirrorSame(a: nat, b: nat, weight: nat)
    requires a < Cap(weight) && b < Cap(weight) && Mirror(a, weight) == Mirror(b, weight)
    ensures a == b
    decreases weight
  {
    if weight > 0 {
      assert a % 2 == b % 2;
      MirrorSame(a / 2, b / 2, weight / 2);
    }
  }

  lemma ByteCap()
    ensures Cap(0x80) == 0x100
  {
    assert Cap(1) == 2 && Cap(2) == 4 && Cap(4) == 8 && Cap(8) == 16 && Cap(16) == 32 && Cap(32) == 64 && Cap(64) == 128;
  }

  lemma ByteSame(a: nat, b: nat)
    requires a < 0x100 && b < 0x100 && UsageByte(a) == UsageByte(b)
    ensures a == b
  {
    ByteCap();
    MirrorSame(a, b, 0x80);
  }

  /** How often a number can be halved. */
  function Trailing(n: nat): nat
    requires n > 0
  {
    if n % 2 == 1 then 0 else 1 + Trailing(n / 2)
  }

  ghost predicate HalvesToOne(n: nat) { n == 1 || (n > 0 && n % 2 == 0 && HalvesToOne(n / 2)) }

  lemma {:induction false} TrailingOfSum(n: nat, w: nat)
    requires HalvesToOne(w) && 0 < n < w
    ensures Trailing(w + n) == Trailing(n)
    decreases w
  {
    if n % 2 == 0 {
      TrailingOfSum(n / 2, w / 2);
      assert (w + n) / 2 == w / 2 + n / 2;
    }
  }

  lemma {:induction false} MirrorNothing(w: nat)
    ensures Mirror(0, w) == 0
    decreases w
  {
    if w > 0 { MirrorNothing(w / 2); }
  }

  lemma {:induction false} TrailingOfMirror(bits: nat, w: nat)
    requires HalvesToOne(w) && 0 < bits < Cap(w)
    ensures Mirror(bits, w) > 0 && Trailing(Mirror(bits, w)) + Highest(bits) == Trailing(w)
    decreases w
  {
    if bits == 1 {
      MirrorNothing(w / 2);
    } else {
      TrailingOfMirror(bits / 2, w / 2);
      if bits % 2 == 1 { TrailingOfSum(Mirror(bits / 2, w / 2), w); }
    }
  }

  /** The unused bits announced for a key usage are the trailing zeros of its last byte. */
  lemma UnusedIsTrailing(bits: nat)
    requires 0 < bits < 0x100
    ensures UsageByte(bits) > 0 && Trailing(UsageByte(bits)) == Unused(bits)
  {
    hide Cap, Trailing, HalvesToOne, Highest, Mirror;
    ByteCap();
    TopWeight();
    TrailingOfMirror(bits, 0x80);
  }

  lemma TopWeight()
    ensures HalvesToOne(0x80) && Trailing(0x80) == 7
  {
    assert HalvesToOne(4) && HalvesToOne(16) && HalvesToOne(64);
    assert Trailing(4) == 2 && Trailing(16) == 4 && Trailing(64) == 6;
  }

  lemma UsageSame(a: uint16, b: uint16)
    requires UsageBits(a) == UsageBits(b)
    ensures a == b
  {
    hide UsageByte, Unused;
    var x, y := UsageBits(a), UsageBits(b);
    assert |x| == |y|;
    if |x| > 1 {
      assert x[1] == y[1];
      ByteSame(a % 0x100, b % 0x100);
    }
    if |x| > 2 {
      assert x[2] == y[2];
      ByteSame(a / 0x100, b / 0x100);
    }
  }

  lemma PurposeSame(p: uint64, q: uint64)
    requires PurposeDer(p).Some? && PurposeDer(p) == PurposeDer(q)
    ensures p == q
  {
    hide Put;
    var x: bytes := [0x2B, 0x06, 0x01, 0x05, 0x05, 0x07, 0x03, if p <= 4 then p else p + 3];
    var y: bytes := [0x2B, 0x06, 0x01, 0x05, 0x05, 0x07, 0x03, if q <= 4 then q else q + 3];
    PutSame(OID, Some(x), OID, Some(y));
    assert x[7] == y[7];
  }

  lemma PurposesSame(ps: seq<uint64>, qs: seq<uint64>)
    requires Items(ps, PurposeDer).Some? && Items(ps, PurposeDer) == Items(qs, PurposeDer)
    ensures ps == qs
  {
    hide PurposeDer, Items;
    forall p: uint64
      ensures IsItem(PurposeDer(p))
    {
      PurposeIsItem(p);
    }
    ItemsSame(ps, qs, PurposeDer);
    forall k | 0 <= k < |ps|
      ensures ps[k] == qs[k]
    {
      PurposeSame(ps[k], qs[k]);
    }
  }

  lemma PurposeIsItem(p: uint64)
    ensures IsItem(PurposeDer(p))
  {
    hide Put, IsItem;
    if PurposeDer(p).Some? {
      PutIsItem(OID, Some([0x2B, 0x06, 0x01, 0x05, 0x05, 0x07, 0x03, if p <= 4 then p else p + 3]));
    } else {
      NoneIsItem();
    }
  }

  lemma NoneIsItem()
    ensures IsItem(None)
  {
  }

  /** The kind of an extension, and what it says, apart. */
  function KindOf(e: CertExtension): bytes {
    match e
    case BasicConstraints(_, _) => BASIC_CONSTRAINTS
    case KeyUsage(_) => KEY_USAGE
    case ExtendedKeyUsage(_) => EXTENDED_KEY_USAGE
    case SubjectKeyId(_) => SUBJECT_KEY_ID
    case AuthorityKeyId(_) => AUTHORITY_KEY_ID
  }

  function BasicBody(isCa: bool, pathLen: Option<uint8>): Option<bytes> {
    Both(if isCa then Leaf(0x01, [0xFF]) else Some([]), if pathLen.Some? then Leaf(INTEGER, [pathLen.value]) else Some([]))
  }

  /** What stands in the octet string of an extension. */
  function Inner(e: CertExtension): Option<bytes> {
    match e
    case BasicConstraints(isCa, pathLen) => Put(SEQUENCE, BasicBody(isCa, pathLen))
    case KeyUsage(bits) => Leaf(0x03, UsageBits(bits))
    case ExtendedKeyUsage(ps) => Put(SEQUENCE, Items(ps, PurposeDer))
    case SubjectKeyId(id) => Leaf(OCTETS, id)
    case AuthorityKeyId(id) => Put(SEQUENCE, Leaf(PRIMITIVE0, id))
  }

  function Said(e: CertExtension): Option<bytes> {
    if e.SubjectKeyId? || e.AuthorityKeyId? then Put(OCTETS, Inner(e)) else Both(Critical(), Put(OCTETS, Inner(e)))
  }

  lemma ExtParts(e: CertExtension)
    ensures ExtDer(e) == Put(SEQUENCE, Both(Leaf(OID, KindOf(e)), Said(e)))
  {
    hide Put, Both, Items, UsageBits;
  }

  lemma KindSame(e: CertExtension, f: CertExtension)
    requires KindOf(e) == KindOf(f)
    ensures e.BasicConstraints? == f.BasicConstraints? && e.KeyUsage? == f.KeyUsage?
    ensures e.ExtendedKeyUsage? == f.ExtendedKeyUsage? && e.SubjectKeyId? == f.SubjectKeyId?
  {
    assert KindOf(e)[2] == KindOf(f)[2];
    assert BASIC_CONSTRAINTS[2] == 0x13 && KEY_USAGE[2] == 0x0F && EXTENDED_KEY_USAGE[2] == 0x25;
    assert SUBJECT_KEY_ID[2] == 0x0E && AUTHORITY_KEY_ID[2] == 0x23;
  }

  lemma BasicText(isCa: bool, pathLen: Option<uint8>)
    ensures BasicBody(isCa, pathLen)
            == Some((if isCa then [0x01, 1, 0xFF] else []) + (if pathLen.Some? then [0x02, 1, pathLen.value] else []))
  {
    ShortTlv(0x01, 0xFF);
    if pathLen.Some? { ShortTlv(INTEGER, pathLen.value); }
    hide Tlv;
  }

  lemma ShortTlv(tag: uint8, b: uint8)
    ensures Tlv(tag, [b]) == [tag, 1, b]
  {
  }

  lemma BasicSame(a: bool, p: Option<uint8>, b: bool, q: Option<uint8>)
    requires BasicBody(a, p) == BasicBody(b, q)
    ensures a == b && p == q
  {
    hide BasicBody;
    BasicText(a, p);
    BasicText(b, q);
    var x, y := BasicBody(a, p).value, BasicBody(b, q).value;
    assert |x| == |y|;
    if x != [] {
      assert x[0] == y[0] && x[|x| - 1] == y[|y| - 1];
    }
  }

  lemma InnerSame(e: CertExtension, f: CertExtension)
    requires KindOf(e) == KindOf(f) && Inner(e).Some? && Inner(e) == Inner(f)
    ensures e == f
  {
    KindSame(e, f);
    hide KindOf, BasicBody, Items, UsageBits, Put;
    match e
    case BasicConstraints(a, p) =>
      PutSame(SEQUENCE, BasicBody(a, p), SEQUENCE, BasicBody(f.isCa, f.pathLen));
      BasicSame(a, p, f.isCa, f.pathLen);
    case KeyUsage(bits) =>
      PutSame(0x03, Some(UsageBits(bits)), 0x03, Some(UsageBits(f.bits)));
      UsageSame(bits, f.bits);
    case ExtendedKeyUsage(ps) =>
      PutSame(SEQUENCE, Items(ps, PurposeDer), SEQUENCE, Items(f.purposes, PurposeDer));
      PutNeeds(SEQUENCE, Items(ps, PurposeDer));
      PurposesSame(ps, f.purposes);
    case SubjectKeyId(id) =>
      PutSame(OCTETS, Some(id), OCTETS, Some(f.id));
    case AuthorityKeyId(id) =>
      PutSame(SEQUENCE, Leaf(PRIMITIVE0, id), SEQUENCE, Leaf(PRIMITIVE0, f.id));
      PutNeeds(SEQUENCE, Leaf(PRIMITIVE0, id));
      PutSame(PRIMITIVE0, Some(id), PRIMITIVE0, Some(f.id));
  }

  /** Two extensions are written the same only if they are the same. */
  lemma ExtSame(e: CertExtension, f: CertExtension)
    requires ExtDer(e).Some? && ExtDer(e) == ExtDer(f)
    ensures e == f
  {
    hide ExtDer, KindOf, Inner, Put;
    ExtParts(e);
    ExtParts(f);
    PutNeeds(SEQUENCE, Both(Leaf(OID, KindOf(e)), Said(e)));
    PutSame(SEQUENCE, Both(Leaf(OID, KindOf(e)), Said(e)), SEQUENCE, Both(Leaf(OID, KindOf(f)), Said(f)));
    BothSame(OID, Some(KindOf(e)), Said(e), OID, Some(KindOf(f)), Said(f));
    KindSame(e, f);
    hide Both;
    if !e.SubjectKeyId? && !e.AuthorityKeyId? {
      BothSame(0x01, Some([0xFF]), Put(OCTETS, Inner(e)), 0x01, Some([0xFF]), Put(OCTETS, Inner(f)));
    }
    PutNeeds(OCTETS, Inner(e));
    PutSame(OCTETS, Inner(e), OCTETS, Inner(f));
    InnerSame(e, f);
  }

  lemma ExtIsItem(e: CertExtension)
    ensures IsItem(ExtDer(e))
  {
    hide ExtDer, Put, Both, IsItem;
    ExtParts(e);
    PutIsItem(SEQUENCE, Both(Leaf(OID, KindOf(e)), Said(e)));
  }

  lemma ExtsSame(es: seq<CertExtension>, fs: seq<CertExtension>)
    requires Items(es, ExtDer).Some? && Items(es, ExtDer) == Items(fs, ExtDer)
    ensures es == fs
  {
    hide ExtDer, Items;
    forall e: CertExtension
      ensures IsItem(ExtDer(e))
    {
      ExtIsItem(e);
    }
    ItemsSame(es, fs, ExtDer);
    forall k | 0 <= k < |es|
      ensures es[k] == fs[k]
    {
      ExtSame(es[k], fs[k]);
    }
  }

  // ---------------------------------------------------------------- times

  /** Different epochs, 0 included, are written differently. */
  lemma TimeSame(a: uint32, b: uint32)
    requires Asn1Time(a) == Asn1Time(b)
    ensures a == b
  {
    hide StampOf, ParseCertTime, EpochSeconds, TimeText, ReadItem;
    if a > 0 && b > 0 {
      EpochRoundTrip(a, []);
      EpochRoundTrip(b, []);
    } else if a != b {
      var e: uint32 := if a > 0 then a else b;
      NotEndless(e);
    }
  }

  lemma NotEndless(e: uint32)
    requires e > 0
    ensures Asn1Time(e) != Asn1Time(0)
  {
    hide StampOf, ParseCertTime, EpochSeconds, TimeText, ReadItem, Tlv, NoExpiration;
    EpochRoundTrip(e, []);
    EpochYears(e);
    var end := Stamp(Date(9999, 12, 31), 23, 59, 59);
    EndlessText();
    if Asn1Time(e) == Asn1Time(0) {
      assert Asn1Time(e) + [] == Asn1Time(e);
      AtWhole(Asn1Time(0));
      ReadTlv(Asn1Time(0), 0, GENERALIZED_TIME, NoExpiration());
      EndlessIsLater();
    }
  }

  lemma EndlessText()
    ensures |NoExpiration()| <= MAX_LEN && Asn1Time(0) == Tlv(GENERALIZED_TIME, NoExpiration())
    ensures ParseCertTime(NoExpiration()) == Some(Stamp(Date(9999, 12, 31), 23, 59, 59))
  {
    var end := Stamp(Date(9999, 12, 31), 23, 59, 59);
    hide ParseCertTime, Tlv;
    TextReads(end);
    assert NoExpiration() == TimeText(end);
  }

  lemma EndlessIsLater()
    ensures EpochSeconds(Stamp(Date(9999, 12, 31), 23, 59, 59)) > 0xFFFF_FFFF + MATTER_EPOCH
  {
  }

  lemma TimesSame(a: uint32, b: uint32, c: uint32, d: uint32)
    requires Asn1Time(a) + Asn1Time(b) == Asn1Time(c) + Asn1Time(d)
    ensures a == c && b == d
  {
    hide Asn1Time, Tlv;
    TimeIsItem(a);
    TimeIsItem(c);
    var t: uint8, x: bytes :| |x| <= MAX_LEN && Asn1Time(a) == Tlv(t, x);
    var u: uint8, y: bytes :| |y| <= MAX_LEN && Asn1Time(c) == Tlv(u, y);
    HeadSame(t, x, Asn1Time(b), u, y, Asn1Time(d));
    TimeSame(a, c);
    TimeSame(b, d);
  }

  lemma TimeIsItem(e: uint32)
    ensures exists t: uint8, c: bytes :: |c| <= MAX_LEN && Asn1Time(e) == Tlv(t, c)
  {
    hide Tlv, TimeText, StampOf, NoExpiration;
    if e == 0 {
      EndlessText();
    } else {
      EpochYears(e);
      var t := StampOf(e + MATTER_EPOCH);
      var tag := if UsesUtc(t.date.year) then UTC_TIME else GENERALIZED_TIME;
      TextLength(t);
      assert Asn1Time(e) == Tlv(tag, TimeText(t));
    }
  }

  // ---------------------------------------------------------------- the signed bytes

  /** Two certificates that say the same, signatures aside. */
  predicate SaySame(c: MatterCert, d: MatterCert) {
    && c.serial == d.serial && c.notBefore == d.notBefore && c.notAfter == d.notAfter && c.pubKey == d.pubKey
    && c.extensions == d.extensions && SameName(c.issuer, d.issuer) && SameName(c.subject, d.subject)
  }

  /** The encoded parts of what is signed, in order. */
  datatype Encoded = Encoded(serial: bytes, issuer: Option<bytes>, times: bytes, subject: Option<bytes>, key: bytes,
                         extensions: Option<bytes>)

  function EncodedOf(c: MatterCert): Encoded {
    Encoded(c.serial, Items(c.issuer, RdnDer), Asn1Time(c.notBefore) + Asn1Time(c.notAfter), Items(c.subject, RdnDer),
          [0] + c.pubKey, Items(c.extensions, ExtDer))
  }

  function Spki(key: bytes): Option<bytes> {
    Put(SEQUENCE, Both(Put(SEQUENCE, Both(Leaf(OID, EC_PUBLIC_KEY), Leaf(OID, PRIME256V1))), Leaf(0x03, key)))
  }

  function Last(p: Encoded): Option<bytes> { Both(Spki(p.key), Put(0xA3, Put(SEQUENCE, p.extensions))) }

  function FromSubject(p: Encoded): Option<bytes> { Both(Put(SEQUENCE, p.subject), Last(p)) }

  function FromTimes(p: Encoded): Option<bytes> { Both(Leaf(SEQUENCE, p.times), FromSubject(p)) }

  function FromIssuer(p: Encoded): Option<bytes> { Both(Put(SEQUENCE, p.issuer), FromTimes(p)) }

  function FromAlgorithm(p: Encoded): Option<bytes> {
    Both(Put(SEQUENCE, Leaf(OID, ECDSA_WITH_SHA256)), FromIssuer(p))
  }

  function FromSerial(p: Encoded): Option<bytes> { Both(Leaf(INTEGER, p.serial), FromAlgorithm(p)) }

  function WholeOf(p: Encoded): Option<bytes> { Put(SEQUENCE, Both(Put(CONTEXT0, Leaf(INTEGER, [2])), FromSerial(p))) }

  lemma TbsEncoded(c: MatterCert)
    ensures TbsDer(c) == WholeOf(EncodedOf(c))
  {
    hide Put, Both, Items, Asn1Time;
  }

  lemma LastSame(p: Encoded, q: Encoded)
    requires Last(p).Some? && Last(p) == Last(q)
    ensures p.key == q.key && p.extensions == q.extensions && p.extensions.Some?
  {
    hide Put, Both;
    var alg := Put(SEQUENCE, Both(Leaf(OID, EC_PUBLIC_KEY), Leaf(OID, PRIME256V1)));
    var a, b := Both(alg, Leaf(0x03, p.key)), Both(alg, Leaf(0x03, q.key));
    var x, y := Put(0xA3, Put(SEQUENCE, p.extensions)), Put(0xA3, Put(SEQUENCE, q.extensions));
    BothSame(SEQUENCE, a, x, SEQUENCE, b, y);
    BothSame(SEQUENCE, Both(Leaf(OID, EC_PUBLIC_KEY), Leaf(OID, PRIME256V1)), Leaf(0x03, p.key),
             SEQUENCE, Both(Leaf(OID, EC_PUBLIC_KEY), Leaf(OID, PRIME256V1)), Leaf(0x03, q.key));
    PutSame(0x03, Some(p.key), 0x03, Some(q.key));
    PutNeeds(0xA3, Put(SEQUENCE, p.extensions));
    PutNeeds(SEQUENCE, p.extensions);
    PutSame(0xA3, Put(SEQUENCE, p.extensions), 0xA3, Put(SEQUENCE, q.extensions));
    PutSame(SEQUENCE, p.extensions, SEQUENCE, q.extensions);
  }

  lemma WholeSame(p: Encoded, q: Encoded)
    requires WholeOf(p).Some? && WholeOf(p) == WholeOf(q)
    ensures p == q && p.issuer.Some? && p.subject.Some? && p.extensions.Some?
  {
    hide Put, Both, Last;
    var version := Leaf(INTEGER, [2]);
    PutNeeds(SEQUENCE, Both(Put(CONTEXT0, version), FromSerial(p)));
    PutSame(SEQUENCE, Both(Put(CONTEXT0, version), FromSerial(p)), SEQUENCE, Both(Put(CONTEXT0, version), FromSerial(q)));
    BothSame(CONTEXT0, version, FromSerial(p), CONTEXT0, version, FromSerial(q));
    BothSame(INTEGER, Some(p.serial), FromAlgorithm(p), INTEGER, Some(q.serial), FromAlgorithm(q));
    var alg := Leaf(OID, ECDSA_WITH_SHA256);
    BothSame(SEQUENCE, alg, FromIssuer(p), SEQUENCE, alg, FromIssuer(q));
    BothSame(SEQUENCE, p.issuer, FromTimes(p), SEQUENCE, q.issuer, FromTimes(q));
    BothSame(SEQUENCE, Some(p.times), FromSubject(p), SEQUENCE, Some(q.times), FromSubject(q));
    BothSame(SEQUENCE, p.subject, Last(p), SEQUENCE, q.subject, Last(q));
    LastSame(p, q);
  }

  /** What is signed determines the certificate: two certificates have the same signed bytes exactly if they agree in
      serial number, names, validity, key and extensions, but for the highest bit of the tags of ids in names, which
      is not written. */
  lemma SignedDetermines(c: MatterCert, d: MatterCert)
    requires TbsDer(c).Some?
    ensures TbsDer(c) == TbsDer(d) <==> SaySame(c, d)
  {
    hide TbsDer, WholeOf, Items, Asn1Time, SameName, RdnDer, ExtDer;
    TbsEncoded(c);
    TbsEncoded(d);
    WholeSame(EncodedOf(c), EncodedOf(c));
    NameSame(c.issuer, d.issuer);
    NameSame(c.subject, d.subject);
    if TbsDer(c) == TbsDer(d) {
      WholeSame(EncodedOf(c), EncodedOf(d));
      TimesSame(c.notBefore, c.notAfter, d.notBefore, d.notAfter);
      ExtsSame(c.extensions, d.extensions);
      assert c.pubKey == ([0] + c.pubKey)[1..] == ([0] + d.pubKey)[1..] == d.pubKey;
    }
  }

  /** The bit that is not covered: a node id under tag 145 instead of 17 has the same signed bytes, but is not found. */
  lemma TagBitIsNotSigned(c: MatterCert, id: uint64)
    requires c.subject == [DnAttr(17, MatterId(id))] && TbsDer(c).Some?
    ensures var d := c.(subject := [DnAttr(145, MatterId(id))]);
            TbsDer(d) == TbsDer(c) && NodeId(c) == Some(id) && NodeId(d) == None
  {
    hide TbsDer;
    var d := c.(subject := [DnAttr(145, MatterId(id))]);
    assert SameName(c.issuer, d.issuer) && SameName(c.subject, d.subject);
    SignedDetermines(c, d);
    assert SubjectId(d.subject[1..], 17).None?;
  }
}
