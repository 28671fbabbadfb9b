/** What an issued certificate and a chain that verifies say, written over the certificates alone
    (crates/mat-controller/src/cert.rs). */
module CertMeaning {
  import opened Wrappers
  import opened TlvCodec
  import opened Cms
  import opened Certificate
  import opened CertChain

  // ---------------------------------------------------------------- first extensions and attributes

  predicate SameKind(a: CertExtension, b: CertExtension) {
    match a
    case BasicConstraints(_, _) => b.BasicConstraints?
    case KeyUsage(_) => b.KeyUsage?
    case ExtendedKeyUsage(_) => b.ExtendedKeyUsage?
    case SubjectKeyId(_) => b.SubjectKeyId?
    case AuthorityKeyId(_) => b.AuthorityKeyId?
  }

  /** `e` is the first extension of its kind. */
  ghost predicate HasFirst(es: seq<CertExtension>, e: CertExtension) {
    exists k :: 0 <= k < |es| && es[k] == e && forall j :: 0 <= j < k ==> !SameKind(es[j], e)
  }

  predicate Numbered(a: DnAttr, tag: uint8) { a.tlvTag == tag && a.value.MatterId? }

  /** The first attribute under the tag whose value is a number has this one. */
  ghost predicate HasId(subject: seq<DnAttr>, tag: uint8, id: uint64) {
    exists k :: 0 <= k < |subject| && subject[k] == DnAttr(tag, MatterId(id))
                && forall j :: 0 <= j < k ==> !Numbered(subject[j], tag)
  }

  lemma HasFirstStep(es: seq<CertExtension>, e: CertExtension)
    requires es != []
    ensures HasFirst(es, e) <==> es[0] == e || (!SameKind(es[0], e) && HasFirst(es[1..], e))
  {
    var rest := es[1..];
    assert forall j :: 0 <= j < |rest| ==> rest[j] == es[j + 1];
    if es[0] != e && HasFirst(es, e) {
      var k :| 0 <= k < |es| && es[k] == e && forall j :: 0 <= j < k ==> !SameKind(es[j], e);
      assert rest[k - 1] == e && forall j :: 0 <= j < k - 1 ==> !SameKind(rest[j], e);
    }
    if !SameKind(es[0], e) && HasFirst(rest, e) {
      var k :| 0 <= k < |rest| && rest[k] == e && forall j :: 0 <= j < k ==> !SameKind(rest[j], e);
      assert es[k + 1] == e;
      forall j | 0 <= j < k + 1
        ensures !SameKind(es[j], e)
      {
        if j > 0 { assert es[j] == rest[j - 1]; }
      }
    }
  }

  lemma HasIdStep(s: seq<DnAttr>, tag: uint8, id: uint64)
    requires s != []
    ensures HasId(s, tag, id) <==> if Numbered(s[0], tag) then s[0].value.id == id else HasId(s[1..], tag, id)
  {
    var rest := s[1..];
    assert forall j :: 0 <= j < |rest| ==> rest[j] == s[j + 1];
    if !Numbered(s[0], tag) && HasId(s, tag, id) {
      var k :| 0 <= k < |s| && s[k] == DnAttr(tag, MatterId(id)) && forall j :: 0 <= j < k ==> !Numbered(s[j], tag);
      assert rest[k - 1] == s[k] && forall j :: 0 <= j < k - 1 ==> !Numbered(rest[j], tag);
    }
    if !Numbered(s[0], tag) && HasId(rest, tag, id) {
      var k :| 0 <= k < |rest| && rest[k] == DnAttr(tag, MatterId(id))
               && forall j :: 0 <= j < k ==> !Numbered(rest[j], tag);
      assert s[k + 1] == rest[k];
      forall j | 0 <= j < k + 1
        ensures !Numbered(s[j], tag)
      {
        if j > 0 { assert s[j] == rest[j - 1]; }
      }
    }
  }

  lemma {:induction false} BasicIsFirst(es: seq<CertExtension>, isCa: bool, pathLen: Option<uint8>)
    ensures BasicOfCert(es) == Some((isCa, pathLen)) <==> HasFirst(es, BasicConstraints(isCa, pathLen))
  {
    if es != [] {
      HasFirstStep(es, BasicConstraints(isCa, pathLen));
      BasicIsFirst(es[1..], isCa, pathLen);
      hide HasFirst;
    }
  }

  lemma {:induction false} UsageIsFirst(es: seq<CertExtension>, bits: uint16)
    ensures UsageOf(es) == Some(bits) <==> HasFirst(es, KeyUsage(bits))
  {
    if es != [] {
      HasFirstStep(es, KeyUsage(bits));
      UsageIsFirst(es[1..], bits);
      hide HasFirst;
    }
  }

  lemma {:induction false} PurposesAreFirst(es: seq<CertExtension>, ps: seq<uint64>)
    ensures PurposesOfCert(es) == Some(ps) <==> HasFirst(es, ExtendedKeyUsage(ps))
  {
    if es != [] {
      HasFirstStep(es, ExtendedKeyUsage(ps));
      PurposesAreFirst(es[1..], ps);
      hide HasFirst;
    }
  }

  lemma {:induction false} KeyIdIsFirst(es: seq<CertExtension>, id: bytes)
    ensures KeyIdOf(es) == Some(id) <==> HasFirst(es, SubjectKeyId(id))
  {
    if es != [] {
      HasFirstStep(es, SubjectKeyId(id));
      KeyIdIsFirst(es[1..], id);
      hide HasFirst;
    }
  }

  lemma {:induction false} IdIsFirst(s: seq<DnAttr>, tag: uint8, id: uint64)
    ensures SubjectId(s, tag) == Some(id) <==> HasId(s, tag, id)
  {
    if s != [] {
      HasIdStep(s, tag, id);
      IdIsFirst(s[1..], tag, id);
      hide HasId;
    }
  }

  // ---------------------------------------------------------------- a chain that verifies

  /** Allowed to sign certificates, with the given limit on the length of the path below: bit 5 of the key usage. */
  ghost predicate Authority(c: MatterCert, pathLen: Option<uint8>) {
    && HasFirst(c.extensions, BasicConstraints(true, pathLen))
    && exists bits: uint16 :: HasFirst(c.extensions, KeyUsage(bits)) && bits % 64 >= 32
  }

  /** No authority, bit 0 of the key usage and neither bit 5 nor bit 6, for clients and for servers. */
  ghost predicate Leafy(c: MatterCert) {
    && (exists pathLen :: HasFirst(c.extensions, BasicConstraints(false, pathLen)))
    && (exists bits: uint16 :: HasFirst(c.extensions, KeyUsage(bits)) && bits % 2 == 1 && bits % 128 < 32)
    && exists ps :: HasFirst(c.extensions, ExtendedKeyUsage(ps)) && 1 in ps && 2 in ps
  }

  /** `key` signed the certificate `c`. */
  ghost predicate Signs(cr: Crypto, key: bytes, c: MatterCert) {
    exists tbs :: TbsDer(c) == Some(tbs) && cr.verify(key, tbs, c.signature)
  }

  /** A root, which may issue and, with a certificate between it and the node, is not limited to nodes. */
  ghost predicate RootLike(c: MatterCert, above: bool) {
    exists pathLen :: Authority(c, pathLen) && (above ==> pathLen != Some(0))
  }

  /** A certificate between root and node may issue, and for nodes only. */
  ghost predicate Between(c: MatterCert) { Authority(c, None) || Authority(c, Some(0)) }

  /** The node has an id, and a fabric: that of the certificate `above`, if this one names one. */
  ghost predicate NodeOf(noc: MatterCert, above: Option<MatterCert>) {
    && (exists node: uint64 :: HasId(noc.subject, 17, node))
    && exists fabric: uint64 :: HasId(noc.subject, 21, fabric)
         && (above.Some? ==> forall f: uint64 :: HasId(above.value.subject, 21, f) ==> f == fabric)
  }

  /** A chain from a root to a node: each certificate is signed by the one above it and names it, the root signs
      itself, the authorities may issue, and the node is one of the fabric. */
  ghost predicate Chained(noc: MatterCert, icac: Option<MatterCert>, rcac: MatterCert, cr: Crypto) {
    var signer := if icac.Some? then icac.value else rcac;
    && Signs(cr, rcac.pubKey, rcac) && RootLike(rcac, icac.Some?)
    && (icac.Some? ==> Signs(cr, rcac.pubKey, signer) && signer.issuer == rcac.subject && Between(signer))
    && Signs(cr, signer.pubKey, noc) && noc.issuer == signer.subject && Leafy(noc) && NodeOf(noc, icac)
  }

  lemma SignsIsSignedBy(cr: Crypto, key: bytes, c: MatterCert)
    ensures SignedBy(cr, c, key) <==> Signs(cr, key, c)
  {
    hide TbsDer;
  }

  lemma AuthorityIsCa(c: MatterCert, pathLen: Option<uint8>)
    ensures CheckCa(c).None? && BasicOfCert(c.extensions) == Some((true, pathLen)) <==> Authority(c, pathLen)
  {
    var es := c.extensions;
    BasicIsFirst(es, true, pathLen);
    forall bits: uint16
      ensures UsageOf(es) == Some(bits) <==> HasFirst(es, KeyUsage(bits))
      ensures CertSign(bits) <==> bits % 64 >= 32
    {
      UsageIsFirst(es, bits);
      BitFive(bits);
    }
    hide HasFirst, BasicOfCert, UsageOf, CertSign;
  }

  lemma BitFive(bits: uint16)
    ensures CertSign(bits) <==> bits % 64 >= 32
  {
    var q, r := bits / 64, bits % 64;
    assert bits == 64 * q + r;
    assert bits / 32 == 2 * q + r / 32;
  }

  lemma BitSix(bits: uint16)
    ensures CrlSign(bits) <==> bits % 128 >= 64
  {
    var q, r := bits / 128, bits % 128;
    assert bits == 128 * q + r;
    assert bits / 64 == 2 * q + r / 64;
  }

  lemma LowBits(bits: uint16)
    ensures DigitalSignature(bits) && !CertSign(bits) && !CrlSign(bits) <==> bits % 2 == 1 && bits % 128 < 32
  {
    BitFive(bits);
    BitSix(bits);
    hide CertSign, CrlSign;
    var q, r := bits / 128, bits % 128;
    assert bits == 64 * (2 * q) + r;
    assert bits % 64 == r % 64;
  }

  lemma RootLikeIsCa(c: MatterCert, above: bool)
    ensures RootLike(c, above) <==>
              CheckCa(c).None? && (above ==> BasicOfCert(c.extensions).value.1 != Some(0))
  {
    forall pathLen: Option<uint8>
      ensures CheckCa(c).None? && BasicOfCert(c.extensions) == Some((true, pathLen)) <==> Authority(c, pathLen)
    {
      AuthorityIsCa(c, pathLen);
    }
    hide Authority;
    if CheckCa(c).None? {
      assert BasicOfCert(c.extensions) == Some((true, BasicOfCert(c.extensions).value.1));
      hide BasicOfCert;
    }
  }

  lemma LeafyIsLeaf(c: MatterCert)
    ensures CheckLeaf(c).None? <==> Leafy(c)
  {
    var es := c.extensions;
    forall pathLen: Option<uint8>
      ensures BasicOfCert(es) == Some((false, pathLen)) <==> HasFirst(es, BasicConstraints(false, pathLen))
    {
      BasicIsFirst(es, false, pathLen);
    }
    forall bits: uint16
      ensures UsageOf(es) == Some(bits) <==> HasFirst(es, KeyUsage(bits))
      ensures DigitalSignature(bits) && !CertSign(bits) && !CrlSign(bits) <==> bits % 2 == 1 && bits % 128 < 32
    {
      UsageIsFirst(es, bits);
      LowBits(bits);
    }
    forall ps: seq<uint64>
      ensures PurposesOfCert(es) == Some(ps) <==> HasFirst(es, ExtendedKeyUsage(ps))
    {
      PurposesAreFirst(es, ps);
    }
    hide HasFirst, BasicOfCert, UsageOf, PurposesOfCert, CertSign, DigitalSignature, CrlSign;
    if CheckLeaf(c).None? {
      assert BasicOfCert(es) == Some((false, BasicOfCert(es).value.1));
      assert UsageOf(es) == Some(UsageOf(es).value) && PurposesOfCert(es) == Some(PurposesOfCert(es).value);
    }
  }

  lemma NodeOfIds(noc: MatterCert, above: Option<MatterCert>)
    ensures NodeOf(noc, above) <==>
              && NodeId(noc).Some? && FabricId(noc).Some?
              && (above.Some? && FabricId(above.value).Some? ==> FabricId(above.value) == FabricId(noc))
  {
    forall s: seq<DnAttr>, tag: uint8, id: uint64
      ensures SubjectId(s, tag) == Some(id) <==> HasId(s, tag, id)
    {
      IdIsFirst(s, tag, id);
    }
    hide HasId, SubjectId;
    if NodeId(noc).Some? && FabricId(noc).Some? {
      assert NodeId(noc) == Some(NodeId(noc).value) && FabricId(noc) == Some(FabricId(noc).value);
    }
    if above.Some? && FabricId(above.value).Some? {
      assert HasId(above.value.subject, 21, FabricId(above.value).value);
    }
  }

  lemma BetweenIsCa(icac: MatterCert)
    ensures Between(icac) <==>
              && CheckCa(icac).None?
              && (BasicOfCert(icac.extensions).value.1.None? || BasicOfCert(icac.extensions).value.1.value == 0)
  {
    var b := BasicOfCert(icac.extensions);
    AuthorityIsCa(icac, None);
    AuthorityIsCa(icac, Some(0));
    hide Authority, BasicOfCert, UsageOf, CertSign;
    if CheckCa(icac).None? {
      assert b == Some((true, b.value.1));
      assert b.value.1.Some? && b.value.1.value == 0 ==> b.value.1 == Some(0);
    }
  }

  lemma IcacIsChained(icac: MatterCert, rcac: MatterCert, cr: Crypto)
    requires CheckCa(rcac).None?
    ensures CheckIcac(icac, rcac, cr).None? <==>
              Signs(cr, rcac.pubKey, icac) && icac.issuer == rcac.subject && Between(icac) && RootLike(rcac, true)
  {
    SignsIsSignedBy(cr, rcac.pubKey, icac);
    BetweenIsCa(icac);
    RootLikeIsCa(rcac, true);
    hide SignedBy, Signs, Between, RootLike, BasicOfCert, UsageOf, CertSign;
  }

  lemma NocIsChained(noc: MatterCert, icac: Option<MatterCert>, signer: MatterCert, cr: Crypto)
    ensures CheckNoc(noc, icac, signer, cr).None? <==>
              Signs(cr, signer.pubKey, noc) && noc.issuer == signer.subject && Leafy(noc) && NodeOf(noc, icac)
  {
    SignsIsSignedBy(cr, signer.pubKey, noc);
    LeafyIsLeaf(noc);
    NodeOfIds(noc, icac);
    hide SignedBy, Signs, Leafy, CheckLeaf, NodeOf, NodeId, FabricId;
  }

  /** A chain verifies exactly if it is one. */
  lemma VerifiesIff(noc: MatterCert, icac: Option<MatterCert>, rcac: MatterCert, cr: Crypto)
    ensures VerifyNocChain(noc, icac, rcac, cr).None? <==> Chained(noc, icac, rcac, cr)
  {
    hide SignedBy, Signs, RootLike, Between, CheckCa, CheckIcac, CheckNoc, Leafy, NodeOf, BasicOfCert, TbsDer;
    SignsIsSignedBy(cr, rcac.pubKey, rcac);
    RootLikeIsCa(rcac, icac.Some?);
    match icac
    case None => NocIsChained(noc, icac, rcac, cr);
    case Some(middle) =>
      NocIsChained(noc, icac, middle, cr);
      if CheckCa(rcac).None? { IcacIsChained(middle, rcac, cr); }
  }

  /** One signature that does not verify under the key of the certificate above is enough to refuse a chain. */
  lemma ForgedIsRefused(noc: MatterCert, icac: Option<MatterCert>, rcac: MatterCert, cr: Crypto, tbs: bytes)
    requires
      || (TbsDer(rcac) == Some(tbs) && !cr.verify(rcac.pubKey, tbs, rcac.signature))
      || (icac.Some? && TbsDer(icac.value) == Some(tbs) && !cr.verify(rcac.pubKey, tbs, icac.value.signature))
      || (TbsDer(noc) == Some(tbs)
          && !cr.verify(if icac.Some? then icac.value.pubKey else rcac.pubKey, tbs, noc.signature))
    ensures VerifyNocChain(noc, icac, rcac, cr).Some?
  {
    VerifiesIff(noc, icac, rcac, cr);
    hide TbsDer, RootLike, Between, Leafy, NodeOf, VerifyNocChain;
  }

  /** The node of a chain that verifies, under another signature: the chain still verifies exactly if that signature
      does. */
  lemma Resigned(noc: MatterCert, icac: Option<MatterCert>, rcac: MatterCert, cr: Crypto, signature: bytes)
    requires VerifyNocChain(noc, icac, rcac, cr).None?
    ensures TbsDer(noc).Some?
    ensures VerifyNocChain(noc.(signature := signature), icac, rcac, cr).None?
            <==> cr.verify(if icac.Some? then icac.value.pubKey else rcac.pubKey, TbsDer(noc).value, signature)
  {
    hide TbsDer, RootLike, Between, HasFirst, HasId, VerifyNocChain;
    VerifiesIff(noc, icac, rcac, cr);
    VerifiesIff(noc.(signature := signature), icac, rcac, cr);
    SignatureIsOutside(noc, signature);
  }

  // ---------------------------------------------------------------- an issued certificate

  /** `c` names the node, the fabric and the tags, carries the operational key, and is a leaf of the issuer. */
  ghost predicate Describes(
    c: MatterCert, opKey: bytes, nodeId: uint64, fabricId: uint64, issuer: MatterCert, serial: bytes,
    cats: seq<uint32>, cr: Crypto)
  {
    && c.pubKey == opKey && c.serial == serial && c.issuer == issuer.subject
    && c.notBefore == 662_688_000 && c.notAfter == 978_048_000
    && |c.subject| == |cats| + 2
    && c.subject[0] == DnAttr(17, MatterId(nodeId)) && c.subject[1] == DnAttr(21, MatterId(fabricId))
    && (forall k :: 0 <= k < |cats| ==> c.subject[k + 2] == DnAttr(22, MatterId(cats[k])))
    && |c.extensions| == 5
    && c.extensions[0] == BasicConstraints(false, None) && c.extensions[1] == KeyUsage(1)
    && c.extensions[2] == ExtendedKeyUsage([2, 1])
    && c.extensions[3] == SubjectKeyId(cr.keyId(opKey))
    && c.extensions[4].AuthorityKeyId? && HasFirst(issuer.extensions, SubjectKeyId(c.extensions[4].id))
  }

  lemma DescribedIsUnsigned(
    c: MatterCert, opKey: bytes, nodeId: uint64, fabricId: uint64, issuer: MatterCert, serial: bytes,
    cats: seq<uint32>, cr: Crypto)
    ensures Describes(c, opKey, nodeId, fabricId, issuer, serial, cats, cr) <==>
              && KeyIdOf(issuer.extensions).Some?
              && c == Unsigned(opKey, nodeId, fabricId, issuer, KeyIdOf(issuer.extensions).value, serial, cats, cr)
                        .(signature := c.signature)
  {
    forall id: bytes
      ensures KeyIdOf(issuer.extensions) == Some(id) <==> HasFirst(issuer.extensions, SubjectKeyId(id))
    {
      KeyIdIsFirst(issuer.extensions, id);
    }
    hide HasFirst, KeyIdOf;
    if KeyIdOf(issuer.extensions).Some? {
      var raw := Unsigned(opKey, nodeId, fabricId, issuer, KeyIdOf(issuer.extensions).value, serial, cats, cr);
      if Describes(c, opKey, nodeId, fabricId, issuer, serial, cats, cr) {
        assert c.subject == raw.subject;
        assert c.extensions == raw.extensions;
      }
    }
  }

  /** What an issued certificate says, and that its issuer's key signed it. None is issued exactly if a tag is bad,
      the issuer has no key id, or the certificate so described cannot be written. */
  lemma IssuedSays(
    opKey: bytes, nodeId: uint64, fabricId: uint64, issuer: MatterCert, issuerKey: bytes, serial: bytes,
    cats: seq<uint32>, cr: Crypto)
    requires Lawful(cr, issuerKey) && issuer.pubKey == cr.publicOf(issuerKey)
    ensures var r := IssueNoc(opKey, nodeId, fabricId, issuer, issuerKey, serial, cats, cr);
            && (r.Some? ==>
                  && Describes(r.value, opKey, nodeId, fabricId, issuer, serial, cats, cr)
                  && |r.value.signature| == 64 && Signs(cr, issuer.pubKey, r.value))
            && (r.None? <==>
                  || !CatsOk(cats)
                  || (forall id :: !HasFirst(issuer.extensions, SubjectKeyId(id)))
                  || exists c :: Describes(c, opKey, nodeId, fabricId, issuer, serial, cats, cr) && TbsDer(c).None?)
  {
    var r := IssueNoc(opKey, nodeId, fabricId, issuer, issuerKey, serial, cats, cr);
    forall id: bytes
      ensures KeyIdOf(issuer.extensions) == Some(id) <==> HasFirst(issuer.extensions, SubjectKeyId(id))
    {
      KeyIdIsFirst(issuer.extensions, id);
    }
    forall c: MatterCert
      ensures Describes(c, opKey, nodeId, fabricId, issuer, serial, cats, cr) <==>
                && KeyIdOf(issuer.extensions).Some?
                && c == Unsigned(opKey, nodeId, fabricId, issuer, KeyIdOf(issuer.extensions).value, serial, cats, cr)
                          .(signature := c.signature)
      ensures KeyIdOf(issuer.extensions).Some? && Describes(c, opKey, nodeId, fabricId, issuer, serial, cats, cr) ==>
                TbsDer(c) == TbsDer(Unsigned(opKey, nodeId, fabricId, issuer, KeyIdOf(issuer.extensions).value, serial, cats, cr))
    {
      DescribedIsUnsigned(c, opKey, nodeId, fabricId, issuer, serial, cats, cr);
      if KeyIdOf(issuer.extensions).Some? {
        SignatureIsOutside(Unsigned(opKey, nodeId, fabricId, issuer, KeyIdOf(issuer.extensions).value, serial, cats, cr), c.signature);
      }
    }
    hide HasFirst, KeyIdOf, TbsDer, Describes, Unsigned, CatsOk;
  }

}
