/** Matter operational certificates in TLV (crates/mat-controller/src/cert.rs), section 6.5 of the Matter Core
    Specification. */
module Certificate {
  import opened Wrappers
  import opened TlvCodec
  import opened TlvTrees
  import opened Records

  /** The text is UTF-8. */
  datatype DnValue = MatterId(id: uint64) | Text(text: bytes)

  datatype DnAttr = DnAttr(tlvTag: uint8, value: DnValue)

  datatype CertExtension =
    | BasicConstraints(isCa: bool, pathLen: Option<uint8>)
    | KeyUsage(bits: uint16)
    | ExtendedKeyUsage(purposes: seq<uint64>)
    | SubjectKeyId(id: bytes)
    | AuthorityKeyId(id: bytes)

  datatype MatterCert = MatterCert(
    serial: bytes, issuer: seq<DnAttr>, notBefore: uint32, notAfter: uint32, subject: seq<DnAttr>, pubKey: bytes,
    extensions: seq<CertExtension>, signature: bytes)

  const MAX_CERT_TLV_LEN: nat := 1024

  predicate DnOk(a: DnAttr) { a.value.Text? ==> Writable(Utf8(a.value.text)) }

  predicate ExtOk(e: CertExtension) {
    match e
    case SubjectKeyId(id) => Writable(Bytes(id))
    case AuthorityKeyId(id) => Writable(Bytes(id))
    case _ => true
  }

  /** What the field types of the original allow. */
  predicate WellTyped(c: MatterCert) {
    && |c.pubKey| == 65 && |c.signature| == 64 && Writable(Bytes(c.serial))
    && (forall k :: 0 <= k < |c.issuer| ==> DnOk(c.issuer[k]))
    && (forall k :: 0 <= k < |c.subject| ==> DnOk(c.subject[k]))
    && forall k :: 0 <= k < |c.extensions| ==> ExtOk(c.extensions[k])
  }

  // ---------------------------------------------------------------- certificates as trees

  function DnTree(a: DnAttr): Tree {
    Leaf(Context(a.tlvTag), match a.value case MatterId(id) => Uint(id) case Text(t) => Utf8(t))
  }

  function DnTrees(attrs: seq<DnAttr>): (r: seq<Tree>)
    ensures |r| == |attrs|
  {
    seq(|attrs|, k requires 0 <= k < |attrs| => DnTree(attrs[k]))
  }

  function Purposes(ps: seq<uint64>): (r: seq<Tree>)
    ensures |r| == |ps|
  {
    seq(|ps|, k requires 0 <= k < |ps| => Leaf(Anonymous, Uint(ps[k])))
  }

  function BasicTrees(isCa: bool, pathLen: Option<uint8>): seq<Tree> {
    [Leaf(Context(1), Bool(isCa))] + if pathLen.Some? then [Leaf(Context(2), Uint(pathLen.value))] else []
  }

  function ExtTree(e: CertExtension): Tree {
    match e
    case BasicConstraints(isCa, pathLen) => Branch(Context(1), StructStart, BasicTrees(isCa, pathLen))
    case KeyUsage(bits) => Leaf(Context(2), Uint(bits))
    case ExtendedKeyUsage(ps) => Branch(Context(3), ArrayStart, Purposes(ps))
    case SubjectKeyId(id) => Leaf(Context(4), Bytes(id))
    case AuthorityKeyId(id) => Leaf(Context(5), Bytes(id))
  }

  function ExtTrees(es: seq<CertExtension>): (r: seq<Tree>)
    ensures |r| == |es|
  {
    seq(|es|, k requires 0 <= k < |es| => ExtTree(es[k]))
  }

  function DnList(ctx: uint8, attrs: seq<DnAttr>): Tree { Branch(Context(ctx), ListStart, DnTrees(attrs)) }

  function ExtList(es: seq<CertExtension>): Tree { Branch(Context(10), ListStart, ExtTrees(es)) }

  function CertTrees(c: MatterCert): (ts: seq<Tree>)
    ensures |ts| == 11
  {
    [Leaf(Context(1), Bytes(c.serial)), Leaf(Context(2), Uint(1)), DnList(3, c.issuer),
     Leaf(Context(4), Uint(c.notBefore)), Leaf(Context(5), Uint(c.notAfter)), DnList(6, c.subject),
     Leaf(Context(7), Uint(1)), Leaf(Context(8), Uint(1)), Leaf(Context(9), Bytes(c.pubKey)),
     ExtList(c.extensions), Leaf(Context(11), Bytes(c.signature))]
  }

  lemma AllOfSeq(ts: seq<Tree>)
    requires forall k :: 0 <= k < |ts| ==> Proper(ts[k])
    ensures ProperAll(ts)
  {
  }

  lemma DnProper(ctx: uint8, attrs: seq<DnAttr>)
    requires forall k :: 0 <= k < |attrs| ==> DnOk(attrs[k])
    ensures Proper(DnList(ctx, attrs))
  {
    forall k | 0 <= k < |attrs|
      ensures Proper(DnTrees(attrs)[k])
    {
      assert DnTrees(attrs)[k] == DnTree(attrs[k]);
    }
    AllOfSeq(DnTrees(attrs));
  }

  lemma ExtProper(e: CertExtension)
    requires ExtOk(e)
    ensures Proper(ExtTree(e))
  {
    if e.ExtendedKeyUsage? { AllOfSeq(Purposes(e.purposes)); }
    if e.BasicConstraints? { AllOfSeq(BasicTrees(e.isCa, e.pathLen)); }
    hide ProperAll;
  }

  lemma CertProper(c: MatterCert)
    requires WellTyped(c)
    ensures ProperAll(CertTrees(c)) && Proper(ExtList(c.extensions))
  {
    DnProper(3, c.issuer);
    DnProper(6, c.subject);
    forall k | 0 <= k < |c.extensions|
      ensures Proper(ExtTrees(c.extensions)[k])
    {
      assert ExtTrees(c.extensions)[k] == ExtTree(c.extensions[k]);
      ExtProper(c.extensions[k]);
    }
    hide ExtTree, DnTrees, ProperAll;
    AllOfSeq(ExtTrees(c.extensions));
    assert Proper(ExtList(c.extensions));
    AllOfSeq(CertTrees(c));
  }

  function ToTlv(c: MatterCert): bytes
    requires WellTyped(c)
  {
    CertProper(c);
    StructBytes(CertTrees(c))
  }

  // ---------------------------------------------------------------- reading trees one by one

  /** Takes in trees from the left as long as each is acceptable. */
  function Fold<A>(ts: seq<Tree>, init: A, step: (A, Tree) -> Option<A>): Option<A> {
    if ts == [] then Some(init)
    else
      match Fold(ts[..|ts| - 1], init, step)
      case None => None
      case Some(a) => step(a, ts[|ts| - 1])
  }

  lemma FoldSnoc<A>(ts: seq<Tree>, t: Tree, init: A, step: (A, Tree) -> Option<A>)
    ensures Fold(ts + [t], init, step)
            == match Fold(ts, init, step) case None => None case Some(a) => step(a, t)
  {
    assert (ts + [t])[..|ts|] == ts;
  }

  lemma FoldNothing<A>(init: A, step: (A, Tree) -> Option<A>)
    ensures Fold([], init, step) == Some(init)
  {
  }

  lemma {:induction false} FoldFails<A>(a: seq<Tree>, b: seq<Tree>, init: A, step: (A, Tree) -> Option<A>)
    requires Fold(a, init, step).None?
    ensures Fold(a + b, init, step).None?
    decreases |b|
  {
    if b == [] {
      assert a + b == a;
    } else {
      var front := b[..|b| - 1];
      FoldFails(a, front, init, step);
      assert a + b == (a + front) + [b[|b| - 1]];
      FoldSnoc(a + front, b[|b| - 1], init, step);
    }
  }

  /** An unacceptable tree spoils the container. */
  lemma BadElement<A>(
    buf: bytes, start: nat, pos: nat, done: seq<Tree>, t: Tree, init: A, step: (A, Tree) -> Option<A>)
    requires Progress(buf, start, pos, done + [t]) && Fold(done, init, step).Some?
    requires step(Fold(done, init, step).value, t).None?
    ensures Parse(buf, start).Ok? ==> Fold(Parse(buf, start).value.0, init, step).None?
  {
    hide Parse, Fold;
    FoldSnoc(done, t, init, step);
    if Parse(buf, pos).Ok? { FoldFails(done + [t], Parse(buf, pos).value.0, init, step); }
  }

  function DnStep(attrs: seq<DnAttr>, t: Tree): Option<seq<DnAttr>> {
    match t
    case Leaf(Context(tag), Uint(v)) => Some(attrs + [DnAttr(tag, MatterId(v))])
    case Leaf(Context(tag), Utf8(s)) => Some(attrs + [DnAttr(tag, Text(s))])
    case _ => None
  }

  function DnOf(ts: seq<Tree>): Option<seq<DnAttr>> { Fold(ts, [], DnStep) }

  datatype Basic = Basic(isCa: Option<bool>, pathLen: Option<uint8>)

  function BasicStep(b: Basic, t: Tree): Option<Basic> {
    match t
    case Leaf(Context(1), Bool(v)) => Some(b.(isCa := Some(v)))
    case Leaf(Context(2), Uint(v)) => if v < 0x100 then Some(b.(pathLen := Some(v))) else None
    case _ => None
  }

  function BasicOf(ts: seq<Tree>): Option<CertExtension> {
    match Fold(ts, Basic(None, None), BasicStep)
    case None => None
    case Some(b) => if b.isCa.None? then None else Some(BasicConstraints(b.isCa.value, b.pathLen))
  }

  function PurposeStep(ps: seq<uint64>, t: Tree): Option<seq<uint64>> {
    match t
    case Leaf(_, Uint(v)) => Some(ps + [v])
    case _ => None
  }

  function PurposesOf(ts: seq<Tree>): Option<seq<uint64>> { Fold(ts, [], PurposeStep) }

  function ExtStep(es: seq<CertExtension>, t: Tree): Option<seq<CertExtension>> {
    match t
    case Branch(Context(1), StructStart, kids) =>
      (match BasicOf(kids) case None => None case Some(e) => Some(es + [e]))
    case Leaf(Context(2), Uint(v)) => if v < 0x1_0000 then Some(es + [KeyUsage(v)]) else None
    case Branch(Context(3), ArrayStart, kids) =>
      (match PurposesOf(kids) case None => None case Some(ps) => Some(es + [ExtendedKeyUsage(ps)]))
    case Leaf(Context(4), Bytes(b)) => Some(es + [SubjectKeyId(b)])
    case Leaf(Context(5), Bytes(b)) => Some(es + [AuthorityKeyId(b)])
    case _ => None
  }

  function ExtsOf(ts: seq<Tree>): Option<seq<CertExtension>> { Fold(ts, [], ExtStep) }

  /** The fields found so far. */
  datatype Partial = Partial(
    serial: Option<bytes>, sigAlgo: bool, issuer: Option<seq<DnAttr>>, notBefore: Option<uint32>,
    notAfter: Option<uint32>, subject: Option<seq<DnAttr>>, keyAlgo: bool, curve: bool, pubKey: Option<bytes>,
    extensions: seq<CertExtension>, signature: Option<bytes>)

  function NoFields(): Partial {
    Partial(None, false, None, None, None, None, false, false, None, [], None)
  }

  function CertStep(p: Partial, t: Tree): Option<Partial> {
    match t
    case Leaf(Context(1), Bytes(b)) => Some(p.(serial := Some(b)))
    case Leaf(Context(2), Uint(v)) => if v == 1 then Some(p.(sigAlgo := true)) else None
    case Branch(Context(3), ListStart, kids) =>
      (match DnOf(kids) case None => None case Some(dn) => Some(p.(issuer := Some(dn))))
    case Leaf(Context(4), Uint(v)) => if v < 0x1_0000_0000 then Some(p.(notBefore := Some(v))) else None
    case Leaf(Context(5), Uint(v)) => if v < 0x1_0000_0000 then Some(p.(notAfter := Some(v))) else None
    case Branch(Context(6), ListStart, kids) =>
      (match DnOf(kids) case None => None case Some(dn) => Some(p.(subject := Some(dn))))
    case Leaf(Context(7), Uint(v)) => if v == 1 then Some(p.(keyAlgo := true)) else None
    case Leaf(Context(8), Uint(v)) => if v == 1 then Some(p.(curve := true)) else None
    case Leaf(Context(9), Bytes(b)) => if |b| == 65 then Some(p.(pubKey := Some(b))) else None
    case Branch(Context(10), ListStart, kids) =>
      (match ExtsOf(kids) case None => None case Some(es) => Some(p.(extensions := es)))
    case Leaf(Context(11), Bytes(b)) => if |b| == 64 then Some(p.(signature := Some(b))) else None
    case _ => None
  }

  function Finished(p: Partial): Option<MatterCert> {
    if !p.sigAlgo || !p.keyAlgo || !p.curve || p.serial.None? || p.issuer.None? || p.notBefore.None?
       || p.notAfter.None? || p.subject.None? || p.pubKey.None? || p.signature.None? then None
    else
      Some(MatterCert(p.serial.value, p.issuer.value, p.notBefore.value, p.notAfter.value, p.subject.value,
                      p.pubKey.value, p.extensions, p.signature.value))
  }

  /** A certificate; `None` for every way it can be malformed. */
  function ParseCert(blob: bytes): Option<MatterCert> {
    if |blob| > MAX_CERT_TLV_LEN then None
    else
      match Fields(blob)
      case None => None
      case Some(ts) => (match Fold(ts, NoFields(), CertStep) case None => None case Some(p) => Finished(p))
  }

  // ---------------------------------------------------------------- the round trip

  lemma {:induction false} DnRoundTrip(attrs: seq<DnAttr>)
    ensures DnOf(DnTrees(attrs)) == Some(attrs)
    decreases |attrs|
  {
    if attrs == [] {
      FoldNothing<seq<DnAttr>>([], DnStep);
    } else {
      var front, last := attrs[..|attrs| - 1], attrs[|attrs| - 1];
      DnRoundTrip(front);
      assert DnTrees(attrs) == DnTrees(front) + [DnTree(last)];
      FoldSnoc(DnTrees(front), DnTree(last), [], DnStep);
      assert front + [last] == attrs;
    }
  }

  lemma {:induction false} PurposesRoundTrip(ps: seq<uint64>)
    ensures PurposesOf(Purposes(ps)) == Some(ps)
    decreases |ps|
  {
    if ps == [] {
      FoldNothing<seq<uint64>>([], PurposeStep);
    } else {
      var front, last := ps[..|ps| - 1], ps[|ps| - 1];
      PurposesRoundTrip(front);
      assert Purposes(ps) == Purposes(front) + [Leaf(Anonymous, Uint(last))];
      FoldSnoc(Purposes(front), Leaf(Anonymous, Uint(last)), [], PurposeStep);
      assert front + [last] == ps;
    }
  }

  lemma BasicRoundTrip(isCa: bool, pathLen: Option<uint8>)
    ensures BasicOf(BasicTrees(isCa, pathLen)) == Some(BasicConstraints(isCa, pathLen))
  {
    var a, z := Leaf(Context(1), Bool(isCa)), Basic(None, None);
    FoldNothing(z, BasicStep);
    FoldSnoc([], a, z, BasicStep);
    assert [] + [a] == [a];
    if pathLen.Some? {
      FoldSnoc([a], Leaf(Context(2), Uint(pathLen.value)), z, BasicStep);
    } else {
      assert [a] + [] == [a];
    }
    hide Fold;
  }

  lemma ExtStepOf(es: seq<CertExtension>, e: CertExtension)
    ensures ExtStep(es, ExtTree(e)) == Some(es + [e])
  {
    hide BasicOf, PurposesOf, BasicTrees, Purposes;
    if e.BasicConstraints? { BasicRoundTrip(e.isCa, e.pathLen); }
    if e.ExtendedKeyUsage? { PurposesRoundTrip(e.purposes); }
  }

  lemma {:induction false} ExtsRoundTrip(es: seq<CertExtension>)
    ensures ExtsOf(ExtTrees(es)) == Some(es)
    decreases |es|
  {
    hide ExtTree, ExtStep;
    if es == [] {
      FoldNothing<seq<CertExtension>>([], ExtStep);
    } else {
      var front, last := es[..|es| - 1], es[|es| - 1];
      ExtsRoundTrip(front);
      assert ExtTrees(es) == ExtTrees(front) + [ExtTree(last)];
      FoldSnoc(ExtTrees(front), ExtTree(last), [], ExtStep);
      ExtStepOf(front, last);
      assert front + [last] == es;
    }
  }

  /** Scanning `k` more trees of a certificate. */
  lemma ScanOne(ts: seq<Tree>, k: nat, p: Partial, q: Partial)
    requires k < |ts| && Fold(ts[..k], NoFields(), CertStep) == Some(p) && CertStep(p, ts[k]) == Some(q)
    ensures Fold(ts[..k + 1], NoFields(), CertStep) == Some(q)
  {
    hide CertStep, Fold;
    FoldSnoc(ts[..k], ts[k], NoFields(), CertStep);
    assert ts[..k + 1] == ts[..k] + [ts[k]];
  }

  /** What the first six fields leave. */
  function FirstSix(c: MatterCert): Partial {
    NoFields().(serial := Some(c.serial), sigAlgo := true, issuer := Some(c.issuer), notBefore := Some(c.notBefore),
                notAfter := Some(c.notAfter), subject := Some(c.subject))
  }

  lemma ScanFirst(c: MatterCert)
    ensures Fold(CertTrees(c)[..6], NoFields(), CertStep) == Some(FirstSix(c))
  {
    hide Fold, DnOf, DnTrees, ExtTrees;
    DnRoundTrip(c.issuer);
    DnRoundTrip(c.subject);
    var ts := CertTrees(c);
    var p0 := NoFields();
    var p1 := p0.(serial := Some(c.serial));
    var p2 := p1.(sigAlgo := true);
    var p3 := p2.(issuer := Some(c.issuer));
    var p4 := p3.(notBefore := Some(c.notBefore));
    var p5 := p4.(notAfter := Some(c.notAfter));
    FoldNothing(p0, CertStep);
    ScanOne(ts, 0, p0, p1); ScanOne(ts, 1, p1, p2); ScanOne(ts, 2, p2, p3); ScanOne(ts, 3, p3, p4);
    ScanOne(ts, 4, p4, p5); ScanOne(ts, 5, p5, FirstSix(c));
  }

  lemma CertScan(c: MatterCert)
    requires WellTyped(c)
    ensures Fold(CertTrees(c), NoFields(), CertStep).Some?
    ensures Finished(Fold(CertTrees(c), NoFields(), CertStep).value) == Some(c)
  {
    hide Fold, ExtsOf, DnTrees, ExtTrees, DnOf;
    ScanFirst(c);
    ExtsRoundTrip(c.extensions);
    var ts := CertTrees(c);
    var p6 := FirstSix(c);
    var p7 := p6.(keyAlgo := true);
    var p8 := p7.(curve := true);
    var p9 := p8.(pubKey := Some(c.pubKey));
    var p10 := p9.(extensions := c.extensions);
    ScanOne(ts, 6, p6, p7); ScanOne(ts, 7, p7, p8); ScanOne(ts, 8, p8, p9); ScanOne(ts, 9, p9, p10);
    ScanOne(ts, 10, p10, p10.(signature := Some(c.signature)));
    assert ts[..11] == ts;
  }

  /** Every certificate is read back from its encoding, exactly if that is at most 1024 bytes long. */
  lemma CertRoundTrip(c: MatterCert)
    requires WellTyped(c)
    ensures ParseCert(ToTlv(c)) == if |ToTlv(c)| <= MAX_CERT_TLV_LEN then Some(c) else None
  {
    hide CertTrees, StructBytes, Fields, Fold, Finished, ProperAll;
    CertProper(c);
    FieldsOfStruct(CertTrees(c));
    CertScan(c);
  }

  /** Long serial numbers make long certificates. */
  lemma LongerThanSerial(c: MatterCert)
    requires WellTyped(c)
    ensures |ToTlv(c)| > |c.serial|
  {
    CertProper(c);
    var ts := CertTrees(c);
    assert ts[0] == Leaf(Context(1), Bytes(c.serial));
    hide CertTrees;
    FirstTreeFits(ts);
  }

  lemma FirstTreeFits(ts: seq<Tree>)
    requires ProperAll(ts) && ts != [] && ts[0].Leaf? && ts[0].value.Bytes?
    ensures |StructBytes(ts)| > |ts[0].value.data|
  {
    var e := Element(ts[0].tag, ts[0].value);
    assert Proper(ts[0]) && Writable(e.value);
    assert |ForestBytes(ts)| >= |TreeBytes(ts[0])| && TreeBytes(ts[0]) == Enc(e);
    assert |Enc(e)| > |ts[0].value.data|;
  }

  /** A certificate that does not survive: its serial number alone is too long. */
  function LongCert(): MatterCert {
    MatterCert(seq(MAX_CERT_TLV_LEN, _ => 1), [], 0, 0, [], seq(65, _ => 0), [], seq(64, _ => 0))
  }

  lemma LongCertIsRefused()
    ensures WellTyped(LongCert()) && ParseCert(ToTlv(LongCert())) == None
  {
    hide ToTlv, ParseCert;
    LongerThanSerial(LongCert());
    CertRoundTrip(LongCert());
  }
}
