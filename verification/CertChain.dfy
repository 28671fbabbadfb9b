/** Issuing and checking node certificates (crates/mat-controller/src/cert.rs), sections 6.5 and 6.6 of the Matter
    Core Specification. */
module CertChain {
  import opened Wrappers
  import opened TlvCodec
  import opened Signatures
  import opened CertTime
  import opened Cms
  import opened Certificate

  // ---------------------------------------------------------------- what is signed

  /** The encodings of `xs` one after the other; `None` when one of them has none. */
  function Items<T>(xs: seq<T>, item: T -> Option<bytes>): Option<bytes> {
    if xs == [] then Some([]) else Both(Items(xs[..|xs| - 1], item), item(xs[|xs| - 1]))
  }

  const EC_PUBLIC_KEY: bytes := [0x2A, 0x86, 0x48, 0xCE, 0x3D, 0x02, 0x01]
  const PRIME256V1: bytes := [0x2A, 0x86, 0x48, 0xCE, 0x3D, 0x03, 0x01, 0x07]
  const COMMON_NAME: bytes := [0x55, 0x04, 0x03]
  const BASIC_CONSTRAINTS: bytes := [0x55, 0x1D, 0x13]
  const KEY_USAGE: bytes := [0x55, 0x1D, 0x0F]
  const EXTENDED_KEY_USAGE: bytes := [0x55, 0x1D, 0x25]
  const SUBJECT_KEY_ID: bytes := [0x55, 0x1D, 0x0E]
  const AUTHORITY_KEY_ID: bytes := [0x55, 0x1D, 0x23]

  /** `n` upper-case hexadecimal digits; longer numbers keep all of theirs. */
  function Hex(v: nat, n: nat): bytes
    decreases v + n
  {
    if v == 0 && n == 0 then []
    else
      Hex(v / 16, if n == 0 then 0 else n - 1)
      + [if v % 16 < 10 then 48 + v % 16 else 55 + v % 16]
  }

  /** The object identifier of a Matter name attribute. */
  function MatterOid(tag: uint8): bytes
    requires 17 <= tag <= 22
  {
    [0x2B, 0x06, 0x01, 0x04, 0x01, 0x82, 0xA2, 0x7C, 0x01, tag - 16]
  }

  /** One attribute of a name; `None` for attributes that are not supported. */
  function DnAttrDer(a: DnAttr): Option<bytes> {
    var base := a.tlvTag % 0x80;
    if 17 <= base <= 22 && a.value.MatterId? then
      Put(SEQUENCE, Both(Leaf(OID, MatterOid(base)), Leaf(0x0C, Hex(a.value.id, if base == 22 then 8 else 16))))
    else if base == 1 && a.value.Text? then
      Put(SEQUENCE, Both(Leaf(OID, COMMON_NAME), Leaf(if a.tlvTag >= 0x80 then 0x13 else 0x0C, a.value.text)))
    else None
  }

  /** An attribute as the only one of its set. */
  function RdnDer(a: DnAttr): Option<bytes> { Put(SET, DnAttrDer(a)) }

  /** The bits of a number, the lowest first: the first stands for `weight`, each next one for half as much. */
  function Mirror(bits: nat, weight: nat): (r: nat)
    ensures if weight == 0 then r == 0 else r < 2 * weight
    decreases weight
  {
    if weight == 0 then 0 else (if bits % 2 == 1 then weight else 0) + Mirror(bits / 2, weight / 2)
  }

  function UsageByte(bits: nat): uint8 { Mirror(bits, 0x80) }

  /** Position of the highest bit that is set, 0 when there is none. */
  function Highest(bits: nat): nat { if bits / 2 == 0 then 0 else 1 + Highest(bits / 2) }

  /** How many low bits of the last byte are not used. */
  function Unused(bits: nat): uint8 { 7 - Highest(bits) % 8 }

  /** A key usage as a bit string without trailing zero bytes. */
  function UsageBits(bits: uint16): bytes {
    var lo: nat, hi: nat := bits % 0x100, bits / 0x100;
    if bits == 0 then [0]
    else if hi == 0 then [Unused(lo), UsageByte(lo)]
    else [Unused(hi), UsageByte(lo), UsageByte(hi)]
  }

  function PurposeDer(p: uint64): Option<bytes> {
    if 1 <= p <= 6 then Leaf(OID, [0x2B, 0x06, 0x01, 0x05, 0x05, 0x07, 0x03, if p <= 4 then p else p + 3]) else None
  }

  function Critical(): Option<bytes> { Leaf(0x01, [0xFF]) }

  /** An extension; `None` for purposes that are not supported. */
  function ExtDer(e: CertExtension): Option<bytes> {
    match e
    case BasicConstraints(isCa, pathLen) =>
      var inner := Both(if isCa then Leaf(0x01, [0xFF]) else Some([]),
                        if pathLen.Some? then Leaf(INTEGER, [pathLen.value]) else Some([]));
      Put(SEQUENCE, Both(Leaf(OID, BASIC_CONSTRAINTS), Both(Critical(), Put(OCTETS, Put(SEQUENCE, inner)))))
    case KeyUsage(bits) =>
      Put(SEQUENCE, Both(Leaf(OID, KEY_USAGE), Both(Critical(), Put(OCTETS, Leaf(0x03, UsageBits(bits))))))
    case ExtendedKeyUsage(ps) =>
      Put(SEQUENCE, Both(Leaf(OID, EXTENDED_KEY_USAGE), Both(Critical(), Put(OCTETS, Put(SEQUENCE, Items(ps, PurposeDer))))))
    case SubjectKeyId(id) => Put(SEQUENCE, Both(Leaf(OID, SUBJECT_KEY_ID), Put(OCTETS, Leaf(OCTETS, id))))
    case AuthorityKeyId(id) =>
      Put(SEQUENCE, Both(Leaf(OID, AUTHORITY_KEY_ID), Put(OCTETS, Put(SEQUENCE, Leaf(PRIMITIVE0, id)))))
  }

  /** The bytes the signature is made over: everything but the signature. `None` for a certificate that cannot be
      written, because of an unsupported attribute or purpose or for its size. */
  function TbsDer(c: MatterCert): Option<bytes> {
    var spki := Put(SEQUENCE, Both(Put(SEQUENCE, Both(Leaf(OID, EC_PUBLIC_KEY), Leaf(OID, PRIME256V1))),
                                   Leaf(0x03, [0] + c.pubKey)));
    Put(SEQUENCE,
        Both(Put(CONTEXT0, Leaf(INTEGER, [2])),
        Both(Leaf(INTEGER, c.serial),
        Both(Put(SEQUENCE, Leaf(OID, ECDSA_WITH_SHA256)),
        Both(Put(SEQUENCE, Items(c.issuer, RdnDer)),
        Both(Leaf(SEQUENCE, Asn1Time(c.notBefore) + Asn1Time(c.notAfter)),
        Both(Put(SEQUENCE, Items(c.subject, RdnDer)),
        Both(spki, Put(0xA3, Put(SEQUENCE, Items(c.extensions, ExtDer)))))))))))
  }

  // ---------------------------------------------------------------- keys and signatures

  /** Signatures seen from outside, and the key id of a public key. */
  datatype Crypto = Crypto(
    verify: (bytes, bytes, bytes) -> bool, sign: (bytes, bytes) -> bytes, publicOf: bytes -> bytes,
    keyId: bytes -> bytes)

  /** What is asked of it for one key: its signatures have 64 bytes and verify under its public key. */
  ghost predicate Lawful(cr: Crypto, key: bytes) {
    forall m: bytes :: |cr.sign(key, m)| == 64 && cr.verify(cr.publicOf(key), m, cr.sign(key, m))
  }

  predicate SignedBy(cr: Crypto, c: MatterCert, publicKey: bytes) {
    TbsDer(c).Some? && cr.verify(publicKey, TbsDer(c).value, c.signature)
  }

  // ---------------------------------------------------------------- authenticated tags

  const MAX_CATS: nat := 3

  /** Authenticated tags: at most three, of versions other than 0, with different identifiers. */
  predicate CatsOk(cats: seq<uint32>) {
    && |cats| <= MAX_CATS && (forall k :: 0 <= k < |cats| ==> cats[k] % 0x1_0000 != 0)
    && forall j, k :: 0 <= j < k < |cats| ==> cats[j] / 0x1_0000 != cats[k] / 0x1_0000
  }

  /** Checks a list of tags one by one. */
  method NewCats(cats: seq<uint32>) returns (ok: bool)
    ensures ok == CatsOk(cats)
  {
    if |cats| > MAX_CATS { return false; }
    for i := 0 to |cats|
      invariant forall k :: 0 <= k < i ==> cats[k] % 0x1_0000 != 0
      invariant forall j, k :: 0 <= j < k < i ==> cats[j] / 0x1_0000 != cats[k] / 0x1_0000
    {
      if cats[i] % 0x1_0000 == 0 { return false; }
      for j := 0 to i
        invariant forall l :: 0 <= l < j ==> cats[l] / 0x1_0000 != cats[i] / 0x1_0000
      {
        if cats[j] / 0x1_0000 == cats[i] / 0x1_0000 { return false; }
      }
    }
    return true;
  }

  const CAT_TAG: uint8 := 22

  /** The raw tags of a subject; `None` when one is not a number of 32 bits. */
  function RawCats(subject: seq<DnAttr>): Option<seq<uint32>> {
    if subject == [] then Some([])
    else
      var a := subject[|subject| - 1];
      match RawCats(subject[..|subject| - 1])
      case None => None
      case Some(cats) =>
        if a.tlvTag != CAT_TAG then Some(cats)
        else if a.value.Text? || a.value.id >= 0x1_0000_0000 then None
        else Some(cats + [a.value.id])
  }

  /** The authenticated tags of a certificate; `None` when they break a rule. */
  function Cats(c: MatterCert): Option<seq<uint32>> {
    match RawCats(c.subject)
    case None => None
    case Some(cats) => if CatsOk(cats) then Some(cats) else None
  }

  // ---------------------------------------------------------------- extensions and ids

  /** The first basic constraints of a certificate. */
  function BasicOfCert(es: seq<CertExtension>): Option<(bool, Option<uint8>)> {
    if es == [] then None
    else if es[0].BasicConstraints? then Some((es[0].isCa, es[0].pathLen))
    else BasicOfCert(es[1..])
  }

  function UsageOf(es: seq<CertExtension>): Option<uint16> {
    if es == [] then None else if es[0].KeyUsage? then Some(es[0].bits) else UsageOf(es[1..])
  }

  function PurposesOfCert(es: seq<CertExtension>): Option<seq<uint64>> {
    if es == [] then None else if es[0].ExtendedKeyUsage? then Some(es[0].purposes) else PurposesOfCert(es[1..])
  }

  function KeyIdOf(es: seq<CertExtension>): Option<bytes> {
    if es == [] then None else if es[0].SubjectKeyId? then Some(es[0].id) else KeyIdOf(es[1..])
  }

  /** The number of the first attribute with this tag that is a number. */
  function SubjectId(subject: seq<DnAttr>, tag: uint8): Option<uint64> {
    if subject == [] then None
    else if subject[0].tlvTag == tag && subject[0].value.MatterId? then Some(subject[0].value.id)
    else SubjectId(subject[1..], tag)
  }

  function NodeId(c: MatterCert): Option<uint64> { SubjectId(c.subject, 17) }

  function FabricId(c: MatterCert): Option<uint64> { SubjectId(c.subject, 21) }

  predicate DigitalSignature(bits: uint16) { bits % 2 == 1 }

  predicate CertSign(bits: uint16) { bits / 32 % 2 == 1 }

  predicate CrlSign(bits: uint16) { bits / 64 % 2 == 1 }

  // ---------------------------------------------------------------- issuing

  const CLIENT_AUTH: uint64 := 2
  const SERVER_AUTH: uint64 := 1
  const MATTER_EPOCH_2021: uint32 := 662_688_000
  const NOC_VALIDITY_SECS: uint32 := 315_360_000

  function CatAttrs(cats: seq<uint32>): seq<DnAttr> {
    seq(|cats|, k requires 0 <= k < |cats| => DnAttr(CAT_TAG, MatterId(cats[k])))
  }

  /** A node certificate before it is signed. */
  function Unsigned(
    opKey: bytes, nodeId: uint64, fabricId: uint64, issuer: MatterCert, issuerKeyId: bytes, serial: bytes,
    cats: seq<uint32>, cr: Crypto): MatterCert
  {
    MatterCert(
      serial, issuer.subject, MATTER_EPOCH_2021, MATTER_EPOCH_2021 + NOC_VALIDITY_SECS,
      [DnAttr(17, MatterId(nodeId)), DnAttr(21, MatterId(fabricId))] + CatAttrs(cats), opKey,
      [BasicConstraints(false, None), KeyUsage(0x0001), ExtendedKeyUsage([CLIENT_AUTH, SERVER_AUTH]),
       SubjectKeyId(cr.keyId(opKey)), AuthorityKeyId(issuerKeyId)],
      seq(64, _ => 0))
  }

  /** `issue_noc_with_cats`; `None` for bad tags, an issuer without a key id, or names that cannot be written. */
  function IssueNoc(
    opKey: bytes, nodeId: uint64, fabricId: uint64, issuer: MatterCert, issuerKey: bytes, serial: bytes,
    cats: seq<uint32>, cr: Crypto): Option<MatterCert>
  {
    if !CatsOk(cats) || KeyIdOf(issuer.extensions).None? then None
    else
      var noc := Unsigned(opKey, nodeId, fabricId, issuer, KeyIdOf(issuer.extensions).value, serial, cats, cr);
      if TbsDer(noc).None? then None else Some(noc.(signature := cr.sign(issuerKey, TbsDer(noc).value)))
  }

  // ---------------------------------------------------------------- checking

  datatype ChainError =
    | BadSignature | NotCa | NoCertSign | WrongIssuer | PathLen | LeafBasic | LeafUsage | LeafPurposes | MissingIds
    | FabricMismatch

  function CheckCa(c: MatterCert): Option<ChainError> {
    var b, u := BasicOfCert(c.extensions), UsageOf(c.extensions);
    if b.None? || !b.value.0 then Some(NotCa)
    else if u.None? || !CertSign(u.value) then Some(NoCertSign)
    else None
  }

  function CheckLeaf(c: MatterCert): Option<ChainError> {
    var b, u, p := BasicOfCert(c.extensions), UsageOf(c.extensions), PurposesOfCert(c.extensions);
    if b.None? || b.value.0 then Some(LeafBasic)
    else if u.None? || !DigitalSignature(u.value) || CertSign(u.value) || CrlSign(u.value) then Some(LeafUsage)
    else if p.None? || CLIENT_AUTH !in p.value || SERVER_AUTH !in p.value then Some(LeafPurposes)
    else None
  }

  /** The intermediate certificate between root and node, if there is one. */
  function CheckIcac(icac: MatterCert, rcac: MatterCert, cr: Crypto): Option<ChainError> {
    var b, rb := BasicOfCert(icac.extensions), BasicOfCert(rcac.extensions);
    if !SignedBy(cr, icac, rcac.pubKey) then Some(BadSignature)
    else if icac.issuer != rcac.subject then Some(WrongIssuer)
    else if CheckCa(icac).Some? then CheckCa(icac)
    else if b.Some? && b.value.1.Some? && b.value.1.value != 0 then Some(PathLen)
    else if rb.Some? && rb.value.1 == Some(0) then Some(PathLen)
    else None
  }

  function CheckNoc(noc: MatterCert, icac: Option<MatterCert>, signer: MatterCert, cr: Crypto): Option<ChainError> {
    if !SignedBy(cr, noc, signer.pubKey) then Some(BadSignature)
    else if noc.issuer != signer.subject then Some(WrongIssuer)
    else if CheckLeaf(noc).Some? then CheckLeaf(noc)
    else if NodeId(noc).None? || FabricId(noc).None? then Some(MissingIds)
    else if icac.Some? && FabricId(icac.value).Some? && FabricId(icac.value) != FabricId(noc) then Some(FabricMismatch)
    else None
  }

  /** `verify_noc_chain`: what is wrong with a chain, `None` if nothing is. */
  function VerifyNocChain(noc: MatterCert, icac: Option<MatterCert>, rcac: MatterCert, cr: Crypto): Option<ChainError> {
    if !SignedBy(cr, rcac, rcac.pubKey) then Some(BadSignature)
    else if CheckCa(rcac).Some? then CheckCa(rcac)
    else if icac.Some? && CheckIcac(icac.value, rcac, cr).Some? then CheckIcac(icac.value, rcac, cr)
    else CheckNoc(noc, icac, if icac.Some? then icac.value else rcac, cr)
  }

  // ---------------------------------------------------------------- the laws

  /** The signature is not part of what is signed. */
  lemma SignatureIsOutside(c: MatterCert, sig: bytes)
    ensures TbsDer(c.(signature := sig)) == TbsDer(c)
  {
    hide Put, Both, Items, Asn1Time;
  }

  lemma {:induction false} RawCatsOf(front: seq<DnAttr>, cats: seq<uint32>)
    requires RawCats(front) == Some([])
    ensures RawCats(front + CatAttrs(cats)) == Some(cats)
    decreases |cats|
  {
    if cats == [] {
      assert front + CatAttrs(cats) == front;
    } else {
      var last := |cats| - 1;
      RawCatsOf(front, cats[..last]);
      assert CatAttrs(cats) == CatAttrs(cats[..last]) + [DnAttr(CAT_TAG, MatterId(cats[last]))];
      var all := front + CatAttrs(cats);
      assert all[..|all| - 1] == front + CatAttrs(cats[..last]);
      assert cats[..last] + [cats[last]] == cats;
    }
  }

  lemma NoRawCats(nodeId: uint64, fabricId: uint64)
    ensures RawCats([DnAttr(17, MatterId(nodeId)), DnAttr(21, MatterId(fabricId))]) == Some([])
  {
    var s := [DnAttr(17, MatterId(nodeId)), DnAttr(21, MatterId(fabricId))];
    assert s[..1] == [s[0]] && [s[0]][..0] == [];
    assert RawCats([s[0]]) == Some([]);
    assert RawCats(s) == RawCats(s[..1]);
  }

  /** The checks of a leaf, on what `IssueNoc` makes. */
  lemma LeafIsFine(c: MatterCert, keyId: bytes, authority: bytes)
    requires c.extensions == [BasicConstraints(false, None), KeyUsage(0x0001),
                              ExtendedKeyUsage([CLIENT_AUTH, SERVER_AUTH]), SubjectKeyId(keyId),
                              AuthorityKeyId(authority)]
    ensures CheckLeaf(c).None?
  {
    var es := c.extensions;
    assert BasicOfCert(es) == Some((false, None));
    assert UsageOf(es[1..]) == Some(0x0001) && UsageOf(es) == UsageOf(es[1..]);
    assert es[1..][1..][0] == es[2];
    assert PurposesOfCert(es[1..][1..]) == Some(es[2].purposes);
    assert PurposesOfCert(es[1..]) == PurposesOfCert(es[1..][1..]) && PurposesOfCert(es) == PurposesOfCert(es[1..]);
  }

  lemma IdsAreThere(nodeId: uint64, fabricId: uint64, more: seq<DnAttr>)
    ensures var s := [DnAttr(17, MatterId(nodeId)), DnAttr(21, MatterId(fabricId))] + more;
            SubjectId(s, 17) == Some(nodeId) && SubjectId(s, 21) == Some(fabricId)
  {
    var s := [DnAttr(17, MatterId(nodeId)), DnAttr(21, MatterId(fabricId))] + more;
    assert s[1..][0] == s[1];
  }

  /** A certificate issued with the issuer's key verifies under the issuer exactly if the issuer is a root: signed
      by itself, a certificate authority, and allowed to sign certificates. It carries the ids and tags it was
      issued for. */
  lemma IssuedVerifies(
    opKey: bytes, nodeId: uint64, fabricId: uint64, issuer: MatterCert, issuerKey: bytes, serial: bytes,
    cats: seq<uint32>, cr: Crypto)
    requires Lawful(cr, issuerKey) && issuer.pubKey == cr.publicOf(issuerKey)
    requires IssueNoc(opKey, nodeId, fabricId, issuer, issuerKey, serial, cats, cr).Some?
    ensures var noc := IssueNoc(opKey, nodeId, fabricId, issuer, issuerKey, serial, cats, cr).value;
            && (VerifyNocChain(noc, None, issuer, cr).None? <==>
                  SignedBy(cr, issuer, issuer.pubKey) && CheckCa(issuer).None?)
            && NodeId(noc) == Some(nodeId) && FabricId(noc) == Some(fabricId) && Cats(noc) == Some(cats)
  {
    hide TbsDer, CheckLeaf, SubjectId, RawCats, CatsOk, CheckCa, CatAttrs, KeyIdOf;
    var keyId := KeyIdOf(issuer.extensions).value;
    var raw := Unsigned(opKey, nodeId, fabricId, issuer, keyId, serial, cats, cr);
    var noc := IssueNoc(opKey, nodeId, fabricId, issuer, issuerKey, serial, cats, cr).value;
    SignatureIsOutside(raw, noc.signature);
    LeafIsFine(noc, cr.keyId(opKey), keyId);
    IdsAreThere(nodeId, fabricId, CatAttrs(cats));
    NoRawCats(nodeId, fabricId);
    RawCatsOf([DnAttr(17, MatterId(nodeId)), DnAttr(21, MatterId(fabricId))], cats);
  }

  /** Written out and read back, an issued certificate is the same and verifies the same. */
  lemma IssuedSurvivesTlv(
    opKey: bytes, nodeId: uint64, fabricId: uint64, issuer: MatterCert, issuerKey: bytes, serial: bytes,
    cats: seq<uint32>, cr: Crypto)
    requires Lawful(cr, issuerKey) && issuer.pubKey == cr.publicOf(issuerKey)
    requires IssueNoc(opKey, nodeId, fabricId, issuer, issuerKey, serial, cats, cr).Some?
    requires WellTyped(issuer) && |opKey| == 65 && Writable(Bytes(serial)) && Writable(Bytes(cr.keyId(opKey)))
    ensures var noc := IssueNoc(opKey, nodeId, fabricId, issuer, issuerKey, serial, cats, cr).value;
            && WellTyped(noc)
            && (|ToTlv(noc)| <= MAX_CERT_TLV_LEN ==>
                  && ParseCert(ToTlv(noc)) == Some(noc) && Cats(ParseCert(ToTlv(noc)).value) == Some(cats)
                  && VerifyNocChain(ParseCert(ToTlv(noc)).value, None, issuer, cr)
                     == VerifyNocChain(noc, None, issuer, cr))
  {
    hide TbsDer, ToTlv, ParseCert, VerifyNocChain, Cats, CatsOk, NodeId, FabricId;
    var noc := IssueNoc(opKey, nodeId, fabricId, issuer, issuerKey, serial, cats, cr).value;
    IssuedVerifies(opKey, nodeId, fabricId, issuer, issuerKey, serial, cats, cr);
    KeyIdIsTyped(issuer.extensions);
    hide KeyIdOf;
    assert noc.subject == [DnAttr(17, MatterId(nodeId)), DnAttr(21, MatterId(fabricId))] + CatAttrs(cats);
    assert forall k :: 0 <= k < |noc.subject| ==> DnOk(noc.subject[k]);
    CertRoundTrip(noc);
  }

  lemma {:induction false} KeyIdIsTyped(es: seq<CertExtension>)
    requires forall k :: 0 <= k < |es| ==> ExtOk(es[k])
    ensures KeyIdOf(es).Some? ==> Writable(Bytes(KeyIdOf(es).value))
  {
    if es != [] {
      assert forall k :: 0 <= k < |es[1..]| ==> es[1..][k] == es[k + 1];
      KeyIdIsTyped(es[1..]);
      assert ExtOk(es[0]);
    }
  }

  /** A node certificate that verifies cannot issue: neither as a root nor as an intermediate certificate. */
  lemma LeafCannotIssue(
    noc: MatterCert, icac: Option<MatterCert>, rcac: MatterCert, cr: Crypto, other: MatterCert, root: MatterCert)
    requires VerifyNocChain(noc, icac, rcac, cr).None?
    ensures VerifyNocChain(other, None, noc, cr).Some?
    ensures VerifyNocChain(other, Some(noc), root, cr).Some?
  {
    hide SignedBy, BasicOfCert, UsageOf, PurposesOfCert;
  }
}
