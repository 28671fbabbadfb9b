/** Signed certification declarations: the CMS writer (crates/mat-controller/src/cd.rs) and reader
    (crates/mat-controller/src/attestation.rs). */
module Cms {
  import opened Wrappers
  import opened LittleEndian
  import opened Der
  import opened Signatures

  const OID: uint8 := 0x06
  const OCTETS: uint8 := 0x04
  const SET: uint8 := 0x31
  const CONTEXT0: uint8 := 0xA0
  const CONTEXT1: uint8 := 0xA1
  const PRIMITIVE0: uint8 := 0x80

  const SHA256: bytes := [0x60, 0x86, 0x48, 0x01, 0x65, 0x03, 0x04, 0x02, 0x01]
  const ECDSA_WITH_SHA256: bytes := [0x2A, 0x86, 0x48, 0xCE, 0x3D, 0x04, 0x03, 0x02]
  const PKCS7_DATA: bytes := [0x2A, 0x86, 0x48, 0x86, 0xF7, 0x0D, 0x01, 0x07, 0x01]
  const PKCS7_SIGNED_DATA: bytes := [0x2A, 0x86, 0x48, 0x86, 0xF7, 0x0D, 0x01, 0x07, 0x02]
  const CMS_MESSAGE_DIGEST: bytes := [0x2A, 0x86, 0x48, 0x86, 0xF7, 0x0D, 0x01, 0x09, 0x04]

  // ---------------------------------------------------------------- writing

  /** An item, unless its content is too long to be written. */
  function Put(tag: uint8, content: Option<bytes>): Option<bytes> {
    if content.Some? && |content.value| <= MAX_LEN then Some(Tlv(tag, content.value)) else None
  }

  function Both(a: Option<bytes>, b: Option<bytes>): Option<bytes> {
    if a.Some? && b.Some? then Some(a.value + b.value) else None
  }

  function Leaf(tag: uint8, content: bytes): Option<bytes> { Put(tag, Some(content)) }

  function EncapContent(content: bytes): Option<bytes> {
    Put(SEQUENCE, Both(Leaf(OID, PKCS7_DATA), Put(CONTEXT0, Leaf(OCTETS, content))))
  }

  function SignerInfo(keyId: bytes, sig: bytes): Option<bytes>
    requires |sig| == 64
  {
    Put(SEQUENCE,
        Both(Leaf(INTEGER, [3]),
        Both(Leaf(PRIMITIVE0, keyId),
        Both(Put(SEQUENCE, Leaf(OID, SHA256)),
        Both(Put(SEQUENCE, Leaf(OID, ECDSA_WITH_SHA256)), Leaf(OCTETS, EcdsaSignature(sig)))))))
  }

  /** Content and signature as CMS signed data; `None` when something is too long. */
  function CmsSign(content: bytes, keyId: bytes, sig: bytes): Option<bytes>
    requires |sig| == 64
  {
    var signedData := Put(SEQUENCE,
                          Both(Leaf(INTEGER, [3]),
                          Both(Put(SET, Put(SEQUENCE, Leaf(OID, SHA256))),
                          Both(EncapContent(content), Put(SET, SignerInfo(keyId, sig))))));
    Put(SEQUENCE, Both(Leaf(OID, PKCS7_SIGNED_DATA), Put(CONTEXT0, signedData)))
  }

  // ---------------------------------------------------------------- reading

  /** What is needed to check the signature. */
  datatype Signer = Signer(signedBytes: bytes, signature: bytes)

  datatype CmsError =
    | NotContentInfo | NoContentType | NoWrapper | NotSignedData | NoVersion | NoDigestAlgorithms | NoEncapContent
    | NoContentOid | NoContentWrapper | NotOctets

  /** Where the next item ends. */
  function Skip(buf: bytes, pos: nat): Option<nat> {
    match ReadItem(buf, pos) case Err(_) => None case Ok((_, end)) => Some(end)
  }

  lemma ItemsAreLong(buf: bytes, pos: nat)
    ensures ReadItem(buf, pos).Ok? ==> pos < ReadItem(buf, pos).value.1 <= |buf|
  {
  }

  /** Past the optional certificates and revocation lists; `None` if one does not read. */
  function SkipOptional(buf: bytes, pos: nat): Option<nat>
    decreases |buf| - pos
  {
    if pos < |buf| && (buf[pos] == CONTEXT0 || buf[pos] == CONTEXT1) then
      ItemsAreLong(buf, pos);
      match Skip(buf, pos) case None => None case Some(end) => SkipOptional(buf, end)
    else Some(pos)
  }

  /** The signed attributes name the digest of the content. */
  function DigestMatches(attrs: bytes, pos: nat, content: bytes, sha: bytes -> bytes): bool
    decreases |attrs| - pos
  {
    if pos >= |attrs| then false
    else
      ItemsAreLong(attrs, pos);
      match ExpectAt(attrs, pos, SEQUENCE)
      case Err(_) => false
      case Ok((attr, end)) =>
        match ExpectAt(attr, 0, OID)
        case Err(_) => false
        case Ok((oid, oidEnd)) =>
          if oid != CMS_MESSAGE_DIGEST then DigestMatches(attrs, end, content, sha)
          else
            match ExpectAt(attr, oidEnd, SET)
            case Err(_) => false
            case Ok((vals, _)) =>
              match ExpectAt(vals, 0, OCTETS) case Err(_) => false case Ok((d, _)) => d == sha(content)
  }

  /** The bytes that were signed and where the signature algorithm stands, from the end of the digest algorithm
      on: the content, or the signed attributes as a set. */
  function SignedBytes(info: bytes, pos: nat, content: bytes, sha: bytes -> bytes): Option<(bytes, nat)> {
    if pos < |info| && info[pos] == CONTEXT0 then
      match ReadItem(info, pos)
      case Err(_) => None
      case Ok((item, end)) =>
        if |item.raw| == 0 || !DigestMatches(item.content, 0, content, sha) then None
        else Some(([SET] + item.raw[1..], end))
    else Some((content, pos))
  }

  /** A signer info; `None` for every way it can be bad. */
  function SignerParsed(info: bytes, content: bytes, sha: bytes -> bytes): Option<Signer> {
    var v := Skip(info, 0);
    if v.None? then None
    else
      var sid := Skip(info, v.value);
      if sid.None? then None
      else
        var alg := Skip(info, sid.value);
        if alg.None? then None
        else
          var signed := SignedBytes(info, alg.value, content, sha);
          if signed.None? then None
          else
            var sigAlg := Skip(info, signed.value.1);
            if sigAlg.None? then None
            else
              match ExpectAt(info, sigAlg.value, OCTETS)
              case Err(_) => None
              case Ok((sig, _)) => Some(Signer(signed.value.0, sig))
  }

  /** The first signer, from the end of the content on. */
  function FirstSigner(sd: bytes, pos: nat, content: bytes, sha: bytes -> bytes): Option<Signer> {
    var p := SkipOptional(sd, pos);
    if p.None? then None
    else
      match ExpectAt(sd, p.value, SET)
      case Err(_) => None
      case Ok((infos, _)) =>
        match ExpectAt(infos, 0, SEQUENCE)
        case Err(_) => None
        case Ok((info, _)) => SignerParsed(info, content, sha)
  }

  /** The content of an encapsulated content info. */
  function ContentOf(eci: bytes): Result<bytes, CmsError> {
    match ExpectAt(eci, 0, OID)
    case Err(_) => Err(NoContentOid)
    case Ok((_, end)) =>
      match ExpectAt(eci, end, CONTEXT0)
      case Err(_) => Err(NoContentWrapper)
      case Ok((wrap, _)) =>
        match ExpectAt(wrap, 0, OCTETS) case Err(_) => Err(NotOctets) case Ok((content, _)) => Ok(content)
  }

  /** Content and first signer of signed data. */
  function SignedDataParsed(sd: bytes, sha: bytes -> bytes): Result<(bytes, Option<Signer>), CmsError> {
    var v := Skip(sd, 0);
    if v.None? then Err(NoVersion)
    else
      var algs := Skip(sd, v.value);
      if algs.None? then Err(NoDigestAlgorithms)
      else
        match ExpectAt(sd, algs.value, SEQUENCE)
        case Err(_) => Err(NoEncapContent)
        case Ok((eci, end)) =>
          match ContentOf(eci)
          case Err(e) => Err(e)
          case Ok(content) => Ok((content, FirstSigner(sd, end, content, sha)))
  }

  /** A signed declaration: its content and its first signer. */
  function CmsParsed(der: bytes, sha: bytes -> bytes): Result<(bytes, Option<Signer>), CmsError> {
    match ExpectAt(der, 0, SEQUENCE)
    case Err(_) => Err(NotContentInfo)
    case Ok((ci, _)) =>
      match ExpectAt(ci, 0, OID)
      case Err(_) => Err(NoContentType)
      case Ok((_, end)) =>
        match ExpectAt(ci, end, CONTEXT0)
        case Err(_) => Err(NoWrapper)
        case Ok((wrapped, _)) =>
          match ExpectAt(wrapped, 0, SEQUENCE) case Err(_) => Err(NotSignedData) case Ok((sd, _)) => SignedDataParsed(sd, sha)
  }

  /** Reads the first signer info with a reader that stands behind the content. */
  method ParseSigner(r: DerReader, content: bytes, sha: bytes -> bytes) returns (s: Option<Signer>)
    modifies r
    ensures s == FirstSigner(r.buf, old(r.pos), content, sha)
  {
    hide ReadItem, SignerParsed;
    ghost var start := r.pos;
    while r.PeekTag() == Some(CONTEXT0) || r.PeekTag() == Some(CONTEXT1)
      invariant SkipOptional(r.buf, r.pos) == SkipOptional(r.buf, start)
      decreases |r.buf| - r.pos
    {
      ItemsAreLong(r.buf, r.pos);
      var skipped := r.Read();
      if skipped.Err? { return None; }
    }
    var infos := r.Expect(SET);
    if infos.Err? { return None; }
    var inner := new DerReader(infos.value);
    var first := inner.Expect(SEQUENCE);
    if first.Err? { return None; }
    s := ParseSignerInfo(first.value, content, sha);
  }

  method ParseSignerInfo(info: bytes, content: bytes, sha: bytes -> bytes) returns (s: Option<Signer>)
    ensures s == SignerParsed(info, content, sha)
  {
    hide ReadItem, DigestMatches;
    var r := new DerReader(info);
    var version := r.Read();
    if version.Err? { return None; }
    var sid := r.Read();
    if sid.Err? { return None; }
    var alg := r.Read();
    if alg.Err? { return None; }
    var signedBytes := content;
    if r.PeekTag() == Some(CONTEXT0) {
      var attrs := r.Read();
      if attrs.Err? || |attrs.value.raw| == 0 { return None; }
      var ok := VerifyMessageDigestAttr(attrs.value.content, content, sha);
      if !ok { return None; }
      signedBytes := [SET] + attrs.value.raw[1..];
    }
    var sigAlg := r.Read();
    if sigAlg.Err? { return None; }
    var sig := r.Expect(OCTETS);
    if sig.Err? { return None; }
    return Some(Signer(signedBytes, sig.value));
  }

  method VerifyMessageDigestAttr(attrs: bytes, content: bytes, sha: bytes -> bytes) returns (ok: bool)
    ensures ok == DigestMatches(attrs, 0, content, sha)
  {
    hide ReadItem;
    var r := new DerReader(attrs);
    while !r.IsEmpty()
      invariant r.buf == attrs && DigestMatches(attrs, r.pos, content, sha) == DigestMatches(attrs, 0, content, sha)
      decreases |attrs| - r.pos
    {
      ItemsAreLong(attrs, r.pos);
      var attr := r.Expect(SEQUENCE);
      if attr.Err? { return false; }
      var ar := new DerReader(attr.value);
      var oid := ar.Expect(OID);
      if oid.Err? { return false; }
      if oid.value != CMS_MESSAGE_DIGEST { continue; }
      var vals := ar.Expect(SET);
      if vals.Err? { return false; }
      var vr := new DerReader(vals.value);
      var digest := vr.Expect(OCTETS);
      if digest.Err? { return false; }
      return digest.value == sha(content);
    }
    return false;
  }

  method ParseCmsSignedData(der: bytes, sha: bytes -> bytes) returns (r: Result<(bytes, Option<Signer>), CmsError>)
    ensures r == CmsParsed(der, sha)
  {
    hide ReadItem, SignedDataParsed;
    var top := new DerReader(der);
    var ci := top.Expect(SEQUENCE);
    if ci.Err? { return Err(NotContentInfo); }
    var ciR := new DerReader(ci.value);
    var oid := ciR.Expect(OID);
    if oid.Err? { return Err(NoContentType); }
    var wrapped := ciR.Expect(CONTEXT0);
    if wrapped.Err? { return Err(NoWrapper); }
    var wrapR := new DerReader(wrapped.value);
    var sd := wrapR.Expect(SEQUENCE);
    if sd.Err? { return Err(NotSignedData); }
    r := ParseSignedData(sd.value, sha);
  }

  method ParseSignedData(sd: bytes, sha: bytes -> bytes) returns (r: Result<(bytes, Option<Signer>), CmsError>)
    ensures r == SignedDataParsed(sd, sha)
  {
    hide ReadItem, FirstSigner;
    var sdR := new DerReader(sd);
    var version := sdR.Read();
    if version.Err? { return Err(NoVersion); }
    var algs := sdR.Read();
    if algs.Err? { return Err(NoDigestAlgorithms); }
    var eci := sdR.Expect(SEQUENCE);
    if eci.Err? { return Err(NoEncapContent); }
    var eciR := new DerReader(eci.value);
    var contentOid := eciR.Expect(OID);
    if contentOid.Err? { return Err(NoContentOid); }
    var wrap := eciR.Expect(CONTEXT0);
    if wrap.Err? { return Err(NoContentWrapper); }
    var ewR := new DerReader(wrap.value);
    var content := ewR.Expect(OCTETS);
    if content.Err? { return Err(NotOctets); }
    var signer := ParseSigner(sdR, content.value, sha);
    return Ok((content.value, signer));
  }

  // ---------------------------------------------------------------- the round trip

  /** An item in the middle of a buffer can be skipped. */
  lemma SkipTlv(before: bytes, tag: uint8, content: bytes, rest: bytes)
    requires |content| <= MAX_LEN
    ensures Skip(before + Tlv(tag, content) + rest, |before|) == Some(|before| + |Tlv(tag, content)|)
    ensures |before + Tlv(tag, content) + rest| > |before|
            && (before + Tlv(tag, content) + rest)[|before|] == tag
  {
    ExpectTlv(before, tag, content, rest);
    hide ReadItem;
    assert Tlv(tag, content)[0] == tag;
  }

  /** The digest algorithm and the signature algorithm. */
  function DigestAlgorithm(): (r: bytes)
    ensures |r| == 13
  {
    Tlv(SEQUENCE, Tlv(OID, SHA256))
  }

  function SignatureAlgorithm(): (r: bytes)
    ensures |r| == 12
  {
    Tlv(SEQUENCE, Tlv(OID, ECDSA_WITH_SHA256))
  }

  /** The parts of an encapsulated content info one after the other. */
  function ContentBody(content: bytes): bytes
    requires |content| <= MAX_LEN && |Tlv(OCTETS, content)| <= MAX_LEN
  {
    Tlv(OID, PKCS7_DATA) + Tlv(CONTEXT0, Tlv(OCTETS, content))
  }

  lemma ContentLayout(content: bytes)
    requires EncapContent(content).Some?
    ensures |content| <= MAX_LEN && |Tlv(OCTETS, content)| <= MAX_LEN && |ContentBody(content)| <= MAX_LEN
    ensures EncapContent(content) == Some(Tlv(SEQUENCE, ContentBody(content)))
  {
    hide Tlv;
  }

  lemma ContentReads(content: bytes)
    requires |content| <= MAX_LEN && |Tlv(OCTETS, content)| <= MAX_LEN
    ensures ContentOf(ContentBody(content)) == Ok(content)
  {
    hide Tlv, ExpectAt, ReadItem;
    var wrap := Tlv(OCTETS, content);
    var oid, w := Tlv(OID, PKCS7_DATA), Tlv(CONTEXT0, wrap);
    ExpectTlv([], OID, PKCS7_DATA, w);
    ExpectTlv(oid, CONTEXT0, wrap, []);
    ExpectWhole(OCTETS, content);
    assert [] + oid + w == oid + w && oid + w + [] == oid + w;
  }

  lemma EcdsaIsShort(sig: bytes)
    requires |sig| == 64
    ensures |EcdsaSignature(sig)| <= 72
  {
    IntegerRoundTrip(sig[..32]);
    IntegerRoundTrip(sig[32..]);
    hide UintContent;
  }

  /** The parts of a signer info one after the other. */
  function SignerBody(keyId: bytes, signature: bytes): bytes
    requires |keyId| <= MAX_LEN && |signature| <= MAX_LEN
  {
    Tlv(INTEGER, [3]) + (Tlv(PRIMITIVE0, keyId)
      + (DigestAlgorithm() + (SignatureAlgorithm() + Tlv(OCTETS, signature))))
  }

  lemma SignerLayout(keyId: bytes, sig: bytes)
    requires |sig| == 64 && SignerInfo(keyId, sig).Some?
    ensures |keyId| <= MAX_LEN && |EcdsaSignature(sig)| <= MAX_LEN
            && |SignerBody(keyId, EcdsaSignature(sig))| <= MAX_LEN
    ensures SignerInfo(keyId, sig) == Some(Tlv(SEQUENCE, SignerBody(keyId, EcdsaSignature(sig))))
  {
    hide Tlv, EcdsaSignature;
    EcdsaIsShort(sig);
  }

  lemma SignerReads(keyId: bytes, signature: bytes, content: bytes, sha: bytes -> bytes)
    requires |keyId| <= MAX_LEN && |signature| <= MAX_LEN
    ensures SignerParsed(SignerBody(keyId, signature), content, sha) == Some(Signer(content, signature))
  {
    hide Tlv, ExpectAt, ReadItem, Skip, SignerBody, DigestMatches;
    var n1, n2, n3, n4 := SignerPlaces(keyId, signature);
  }

  /** Where the parts of a signer info stand. */
  lemma SignerPlaces(keyId: bytes, signature: bytes) returns (n1: nat, n2: nat, n3: nat, n4: nat)
    requires |keyId| <= MAX_LEN && |signature| <= MAX_LEN
    ensures var info := SignerBody(keyId, signature);
            && Skip(info, 0) == Some(n1) && Skip(info, n1) == Some(n2) && Skip(info, n2) == Some(n3)
            && n3 < |info| && info[n3] == SEQUENCE && Skip(info, n3) == Some(n4)
            && ExpectAt(info, n4, OCTETS).Ok? && ExpectAt(info, n4, OCTETS).value.0 == signature
  {
    hide Tlv, ExpectAt, ReadItem, Skip, DigestAlgorithm, SignatureAlgorithm, At;
    var a, b, c, d := Tlv(INTEGER, [3]), Tlv(PRIMITIVE0, keyId), DigestAlgorithm(), SignatureAlgorithm();
    var e := Tlv(OCTETS, signature);
    var info := SignerBody(keyId, signature);
    n1, n2, n3, n4 := |a|, |a| + |b|, |a| + |b| + |c|, |a| + |b| + |c| + |d|;
    FivePlaces(a, b, c, d, e);
    hide SignerBody;
    Algorithms();
    SkipAt(info, 0, INTEGER, [3]);
    SkipAt(info, n1, PRIMITIVE0, keyId);
    SkipAt(info, n2, SEQUENCE, Tlv(OID, SHA256));
    SkipAt(info, n3, SEQUENCE, Tlv(OID, ECDSA_WITH_SHA256));
    SkipAt(info, n4, OCTETS, signature);
  }

  lemma Algorithms()
    ensures |Tlv(OID, SHA256)| == 11 && |Tlv(OID, ECDSA_WITH_SHA256)| == 10
    ensures DigestAlgorithm() == Tlv(SEQUENCE, Tlv(OID, SHA256))
    ensures SignatureAlgorithm() == Tlv(SEQUENCE, Tlv(OID, ECDSA_WITH_SHA256))
  {
  }

  /** Where five pieces stand that were put one after the other. */
  lemma FivePlaces(a: bytes, b: bytes, c: bytes, d: bytes, e: bytes)
    ensures var all := a + (b + (c + (d + e)));
            && At(all, 0, a) && At(all, |a|, b) && At(all, |a| + |b|, c)
            && At(all, |a| + |b| + |c|, d) && At(all, |a| + |b| + |c| + |d|, e)
  {
    hide At;
    var all := a + (b + (c + (d + e)));
    AtWhole(all);
    AtConcat(all, 0, a, b + (c + (d + e)));
    AtConcat(all, |a|, b, c + (d + e));
    AtConcat(all, |a| + |b|, c, d + e);
    AtConcat(all, |a| + |b| + |c|, d, e);
  }

  /** An item that stands at a place is read there. */
  lemma SkipAt(buf: bytes, pos: nat, tag: uint8, content: bytes)
    requires |content| <= MAX_LEN && At(buf, pos, Tlv(tag, content))
    ensures Skip(buf, pos) == Some(pos + |Tlv(tag, content)|)
    ensures ExpectAt(buf, pos, tag) == Ok((content, pos + |Tlv(tag, content)|))
    ensures pos < |buf| && buf[pos] == tag
  {
    ReadTlv(buf, pos, tag, content);
    ItemsAreLong(buf, pos);
    assert ReadItem(buf, pos).value.0.tag == buf[pos];
    hide ReadItem, Tlv;
  }

  /** The parts of signed data one after the other. */
  function SignedData(eci: bytes, infos: bytes): bytes
    requires |eci| <= MAX_LEN && |infos| <= MAX_LEN
  {
    Tlv(INTEGER, [3]) + (Tlv(SET, DigestAlgorithm()) + (Tlv(SEQUENCE, eci) + Tlv(SET, infos)))
  }

  lemma SignedDataReads(eci: bytes, info: bytes, content: bytes, sha: bytes -> bytes, signer: Signer)
    requires |eci| <= MAX_LEN && |info| <= MAX_LEN && |Tlv(SEQUENCE, info)| <= MAX_LEN
    requires ContentOf(eci) == Ok(content) && SignerParsed(info, content, sha) == Some(signer)
    ensures SignedDataParsed(SignedData(eci, Tlv(SEQUENCE, info)), sha) == Ok((content, Some(signer)))
  {
    hide Tlv, ExpectAt, ReadItem, ContentOf, SignerParsed, Skip, DigestAlgorithm;
    var a, b := Tlv(INTEGER, [3]), Tlv(SET, DigestAlgorithm());
    var c, d := Tlv(SEQUENCE, eci), Tlv(SET, Tlv(SEQUENCE, info));
    SkipTlv([], INTEGER, [3], b + (c + d));
    SkipTlv(a, SET, DigestAlgorithm(), c + d);
    ExpectTlv(a + b, SEQUENCE, eci, d);
    SkipTlv(a + b + c, SET, Tlv(SEQUENCE, info), []);
    ExpectTlv(a + b + c, SET, Tlv(SEQUENCE, info), []);
    ExpectWhole(SEQUENCE, info);
    FourParts(a, b, c, d);
  }

  lemma FourParts(a: bytes, b: bytes, c: bytes, d: bytes)
    ensures var all := a + (b + (c + d));
            && [] + a + (b + (c + d)) == all && a + b + (c + d) == all
            && (a + b) + c + d == all && (a + b + c) + d + [] == all
  {
  }

  /** The parts of a content info one after the other. */
  function InfoBody(sd: bytes): bytes
    requires |sd| <= MAX_LEN && |Tlv(SEQUENCE, sd)| <= MAX_LEN
  {
    Tlv(OID, PKCS7_SIGNED_DATA) + Tlv(CONTEXT0, Tlv(SEQUENCE, sd))
  }

  lemma InfoReads(sd: bytes, sha: bytes -> bytes)
    requires |sd| <= MAX_LEN && |Tlv(SEQUENCE, sd)| <= MAX_LEN && |InfoBody(sd)| <= MAX_LEN
    ensures CmsParsed(Tlv(SEQUENCE, InfoBody(sd)), sha) == SignedDataParsed(sd, sha)
  {
    hide Tlv, ExpectAt, ReadItem, SignedDataParsed;
    var oid, w := Tlv(OID, PKCS7_SIGNED_DATA), Tlv(CONTEXT0, Tlv(SEQUENCE, sd));
    ExpectWhole(SEQUENCE, oid + w);
    ExpectTlv([], OID, PKCS7_SIGNED_DATA, w);
    ExpectTlv(oid, CONTEXT0, Tlv(SEQUENCE, sd), []);
    ExpectWhole(SEQUENCE, sd);
    assert [] + oid + w == oid + w && oid + w + [] == oid + w;
  }

  lemma CmsLayout(content: bytes, keyId: bytes, sig: bytes)
    requires |sig| == 64 && CmsSign(content, keyId, sig).Some?
    ensures EncapContent(content).Some? && SignerInfo(keyId, sig).Some?
    ensures ContentLayoutOf(content, keyId, sig)
  {
    hide Tlv, EcdsaSignature, EncapContent, SignerInfo, ContentBody, SignerBody;
    ContentLayout(content);
    SignerLayout(keyId, sig);
  }

  ghost predicate ContentLayoutOf(content: bytes, keyId: bytes, sig: bytes)
    requires |sig| == 64 && EncapContent(content).Some? && SignerInfo(keyId, sig).Some?
  {
    ContentLayout(content);
    SignerLayout(keyId, sig);
    var info := Tlv(SEQUENCE, SignerBody(keyId, EcdsaSignature(sig)));
    |info| <= MAX_LEN
    && var sd := SignedData(ContentBody(content), info);
       |sd| <= MAX_LEN && |Tlv(SEQUENCE, sd)| <= MAX_LEN && |InfoBody(sd)| <= MAX_LEN
       && CmsSign(content, keyId, sig) == Some(Tlv(SEQUENCE, InfoBody(sd)))
  }

  lemma CmsReads(content: bytes, keyId: bytes, sig: bytes, sha: bytes -> bytes)
    requires |sig| == 64 && CmsSign(content, keyId, sig).Some?
    ensures CmsParsed(CmsSign(content, keyId, sig).value, sha)
            == Ok((content, Some(Signer(content, EcdsaSignature(sig)))))
  {
    hide Tlv, EcdsaSignature, EncapContent, SignerInfo, ContentBody, SignerBody, CmsSign, CmsParsed;
    hide SignedData, SignedDataParsed, InfoBody, ContentOf, SignerParsed;
    CmsLayout(content, keyId, sig);
    ContentLayout(content);
    SignerLayout(keyId, sig);
    ContentReads(content);
    SignerReads(keyId, EcdsaSignature(sig), content, sha);
    var body := SignerBody(keyId, EcdsaSignature(sig));
    SignedDataReads(ContentBody(content), body, content, sha, Signer(content, EcdsaSignature(sig)));
    InfoReads(SignedData(ContentBody(content), Tlv(SEQUENCE, body)), sha);
  }

  // ---------------------------------------------------------------- what can be written

  /** Length of an item with `n` bytes of content. */
  function ItemLength(n: nat): nat { n + if n < 128 then 2 else if n < 256 then 3 else 4 }

  function EncapLength(content: nat): nat { ItemLength(11 + ItemLength(ItemLength(content))) }

  function SignerLength(keyId: nat, signature: nat): nat {
    ItemLength(3 + (ItemLength(keyId) + (13 + (12 + ItemLength(signature)))))
  }

  /** Bytes in the outermost item, by the lengths of content, key id and DER signature. */
  function CmsLength(content: nat, keyId: nat, signature: nat): nat {
    11 + ItemLength(ItemLength(3 + (15 + (EncapLength(content) + ItemLength(SignerLength(keyId, signature))))))
  }

  /** The text has `n` bytes; there is none only if these are too many for an item. */
  ghost predicate Measures(x: Option<bytes>, n: nat) { if x.Some? then |x.value| == n else n > MAX_LEN }

  lemma PutMeasures(tag: uint8, content: Option<bytes>, n: nat)
    requires Measures(content, n)
    ensures Measures(Put(tag, content), ItemLength(n)) && (Put(tag, content).Some? <==> n <= MAX_LEN)
  {
  }

  lemma BothMeasure(a: Option<bytes>, b: Option<bytes>, m: nat, n: nat)
    requires Measures(a, m) && Measures(b, n)
    ensures Measures(Both(a, b), m + n)
  {
  }

  lemma LeafMeasures(tag: uint8, content: bytes)
    ensures Measures(Leaf(tag, content), ItemLength(|content|))
  {
    PutMeasures(tag, Some(content), |content|);
    hide Put;
  }

  lemma EncapMeasures(content: bytes)
    ensures Measures(EncapContent(content), EncapLength(|content|))
  {
    hide Put, Both, Measures, ItemLength;
    LeafMeasures(OID, PKCS7_DATA);
    LeafMeasures(OCTETS, content);
    PutMeasures(CONTEXT0, Leaf(OCTETS, content), ItemLength(|content|));
    NineBytes();
    hide Leaf;
    var w := Put(CONTEXT0, Leaf(OCTETS, content));
    BothMeasure(Leaf(OID, PKCS7_DATA), w, 11, ItemLength(ItemLength(|content|)));
    PutMeasures(SEQUENCE, Both(Leaf(OID, PKCS7_DATA), w), 11 + ItemLength(ItemLength(|content|)));
  }

  lemma NineBytes()
    ensures ItemLength(|PKCS7_DATA|) == 11 == ItemLength(|PKCS7_SIGNED_DATA|) == ItemLength(|SHA256|)
    ensures ItemLength(|ECDSA_WITH_SHA256|) == 10 && ItemLength(10) == 12 && ItemLength(11) == 13 && ItemLength(13) == 15
    ensures ItemLength(1) == 3
  {
  }

  lemma SignerMeasures(keyId: bytes, sig: bytes)
    requires |sig| == 64
    ensures Measures(SignerInfo(keyId, sig), SignerLength(|keyId|, |EcdsaSignature(sig)|))
  {
    hide Put, Both, Measures, ItemLength, EcdsaSignature;
    var s := EcdsaSignature(sig);
    NineBytes();
    LeafMeasures(INTEGER, [3]);
    LeafMeasures(PRIMITIVE0, keyId);
    LeafMeasures(OID, SHA256);
    LeafMeasures(OID, ECDSA_WITH_SHA256);
    LeafMeasures(OCTETS, s);
    PutMeasures(SEQUENCE, Leaf(OID, SHA256), 11);
    PutMeasures(SEQUENCE, Leaf(OID, ECDSA_WITH_SHA256), 10);
    var c, d, e := Put(SEQUENCE, Leaf(OID, SHA256)), Put(SEQUENCE, Leaf(OID, ECDSA_WITH_SHA256)), Leaf(OCTETS, s);
    var b := Leaf(PRIMITIVE0, keyId);
    var g, k := ItemLength(|s|), ItemLength(|keyId|);
    BothMeasure(d, e, 12, g);
    BothMeasure(c, Both(d, e), 13, 12 + g);
    BothMeasure(b, Both(c, Both(d, e)), k, 13 + (12 + g));
    var all := Both(Leaf(INTEGER, [3]), Both(b, Both(c, Both(d, e))));
    BothMeasure(Leaf(INTEGER, [3]), Both(b, Both(c, Both(d, e))), 3, k + (13 + (12 + g)));
    PutMeasures(SEQUENCE, all, 3 + (k + (13 + (12 + g))));
  }

  /** A declaration can be written if and only if its outermost item holds at most 65535 bytes. */
  lemma CmsMeasures(content: bytes, keyId: bytes, sig: bytes)
    requires |sig| == 64
    ensures CmsSign(content, keyId, sig).Some? <==>
            CmsLength(|content|, |keyId|, |EcdsaSignature(sig)|) <= MAX_LEN
  {
    hide Put, Both, Measures, ItemLength, EncapContent, SignerInfo, EncapLength, SignerLength, EcdsaSignature;
    var n, m := EncapLength(|content|), SignerLength(|keyId|, |EcdsaSignature(sig)|);
    NineBytes();
    EncapMeasures(content);
    SignerMeasures(keyId, sig);
    LeafMeasures(INTEGER, [3]);
    LeafMeasures(OID, SHA256);
    LeafMeasures(OID, PKCS7_SIGNED_DATA);
    PutMeasures(SEQUENCE, Leaf(OID, SHA256), 11);
    PutMeasures(SET, Put(SEQUENCE, Leaf(OID, SHA256)), 13);
    PutMeasures(SET, SignerInfo(keyId, sig), m);
    var b, c, d := Put(SET, Put(SEQUENCE, Leaf(OID, SHA256))), EncapContent(content), Put(SET, SignerInfo(keyId, sig));
    BothMeasure(c, d, n, ItemLength(m));
    BothMeasure(b, Both(c, d), 15, n + ItemLength(m));
    var all, size := Both(Leaf(INTEGER, [3]), Both(b, Both(c, d))), 3 + (15 + (n + ItemLength(m)));
    BothMeasure(Leaf(INTEGER, [3]), Both(b, Both(c, d)), 3, 15 + (n + ItemLength(m)));
    PutMeasures(SEQUENCE, all, size);
    PutMeasures(CONTEXT0, Put(SEQUENCE, all), ItemLength(size));
    var w := Put(CONTEXT0, Put(SEQUENCE, all));
    BothMeasure(Leaf(OID, PKCS7_SIGNED_DATA), w, 11, ItemLength(ItemLength(size)));
    PutMeasures(SEQUENCE, Both(Leaf(OID, PKCS7_SIGNED_DATA), w), 11 + ItemLength(ItemLength(size)));
  }

  /** A declaration is written exactly if its outermost item holds at most 65535 bytes, and then reads back as the
      content, signed as it stands, with the signature that was made. */
  lemma CmsRoundTrip(content: bytes, keyId: bytes, sig: bytes, sha: bytes -> bytes)
    requires |sig| == 64
    ensures CmsSign(content, keyId, sig).Some? <==>
            CmsLength(|content|, |keyId|, |EcdsaSignature(sig)|) <= MAX_LEN
    ensures CmsSign(content, keyId, sig).Some? ==>
              CmsParsed(CmsSign(content, keyId, sig).value, sha)
              == Ok((content, Some(Signer(content, EcdsaSignature(sig)))))
    ensures EcdsaParsed(EcdsaSignature(sig)) == Some(sig)
  {
    hide CmsSign, CmsParsed, CmsLength, EcdsaSignature, EcdsaParsed;
    EcdsaRoundTrip(sig);
    CmsMeasures(content, keyId, sig);
    if CmsSign(content, keyId, sig).Some? { CmsReads(content, keyId, sig, sha); }
  }

  /** Content and key id of up to 65361 bytes together fit with every signature. From 256 bytes each on, and with the
      longest signatures, one byte more does not. */
  lemma CmsFits(content: nat, keyId: nat, signature: nat)
    requires signature <= 72
    ensures content + keyId <= 65361 ==> CmsLength(content, keyId, signature) <= MAX_LEN
    ensures content >= 256 && keyId >= 256 && signature == 72 ==>
              (CmsLength(content, keyId, signature) <= MAX_LEN <==> content + keyId <= 65361)
  {
  }

  /** A declaration that cannot be written. */
  lemma LongContentIsRefused(content: bytes, keyId: bytes, sig: bytes)
    requires |sig| == 64 && |content| > MAX_LEN
    ensures CmsSign(content, keyId, sig).None?
  {
    hide CmsSign, EcdsaSignature;
    CmsMeasures(content, keyId, sig);
  }
}
