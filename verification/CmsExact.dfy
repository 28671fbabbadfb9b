/** Exactly which signed data the reader accepts, and what its signer signed
    (crates/mat-controller/src/attestation.rs), RFC 5652 sections 5.3 and 5.4. */
module CmsExact {
  import opened Wrappers
  import opened LittleEndian
  import opened Der
  import opened Signatures
  import opened DerExact
  import opened Cms

  /** Some item stands at `pos` and ends at `end`. */
  ghost predicate ItemAt(buf: bytes, pos: nat, end: nat) {
    exists tag: uint8, content: bytes :: Under(buf, pos, tag, content, end)
  }

  lemma SkipIsExact(buf: bytes, pos: nat, end: nat)
    ensures Skip(buf, pos) == Some(end) <==> ItemAt(buf, pos, end)
  {
    hide Under;
    if Skip(buf, pos) == Some(end) {
      var item := ReadItem(buf, pos).value.0;
      UnderIsExact(buf, pos, item.tag, item.content, end);
    }
    if tag: uint8, content: bytes :| Under(buf, pos, tag, content, end) {
      UnderIsExact(buf, pos, tag, content, end);
    }
  }

  // ---------------------------------------------------------------- signed attributes

  const MESSAGE_DIGEST: bytes := [0x2A, 0x86, 0x48, 0x86, 0xF7, 0x0D, 0x01, 0x09, 0x04]

  /** An attribute of another kind stands at `pos` and ends at `end`. */
  ghost predicate OtherAttr(buf: bytes, pos: nat, end: nat) {
    exists attr: bytes, oid: bytes, e: nat ::
      Under(buf, pos, 0x30, attr, end) && Under(attr, 0, 0x06, oid, e) && oid != MESSAGE_DIGEST
  }

  /** A message digest attribute with the digest `d` stands at `pos`. */
  ghost predicate DigestAttr(buf: bytes, pos: nat, d: bytes) {
    exists attr: bytes, end: nat, e1: nat, vals: bytes, e2: nat, e3: nat ::
      && Under(buf, pos, 0x30, attr, end) && Under(attr, 0, 0x06, MESSAGE_DIGEST, e1)
      && Under(attr, e1, 0x31, vals, e2) && Under(vals, 0, 0x04, d, e3)
  }

  /** From `pos` on stand attributes of other kinds and then a message digest with the digest `d`; `at` are their
      positions. */
  ghost predicate Names(attrs: bytes, pos: nat, at: seq<nat>, d: bytes) {
    && at != [] && at[0] == pos
    && (forall k :: 0 <= k < |at| - 1 ==> OtherAttr(attrs, at[k], at[k + 1]))
    && DigestAttr(attrs, at[|at| - 1], d)
  }

  lemma OtherStep(attrs: bytes, pos: nat, end: nat, content: bytes, sha: bytes -> bytes)
    requires OtherAttr(attrs, pos, end)
    ensures pos < end <= |attrs| && DigestMatches(attrs, pos, content, sha) == DigestMatches(attrs, end, content, sha)
  {
    hide Under, ExpectAt;
    var attr: bytes, oid: bytes, e: nat :|
      Under(attrs, pos, 0x30, attr, end) && Under(attr, 0, 0x06, oid, e) && oid != MESSAGE_DIGEST;
    UnderIsExact(attrs, pos, 0x30, attr, end);
    UnderIsExact(attr, 0, 0x06, oid, e);
    ExpectEnds(attrs, pos, 0x30);
  }

  lemma ExpectEnds(buf: bytes, pos: nat, tag: uint8)
    requires ExpectAt(buf, pos, tag).Ok?
    ensures pos < ExpectAt(buf, pos, tag).value.1 <= |buf|
  {
    ItemsAreLong(buf, pos);
    hide ReadItem;
  }

  lemma DigestStep(attrs: bytes, pos: nat, content: bytes, sha: bytes -> bytes)
    requires DigestAttr(attrs, pos, sha(content))
    ensures DigestMatches(attrs, pos, content, sha)
  {
    hide Under, ExpectAt;
    var attr: bytes, end: nat, e1: nat, vals: bytes, e2: nat, e3: nat :|
      && Under(attrs, pos, 0x30, attr, end) && Under(attr, 0, 0x06, MESSAGE_DIGEST, e1)
      && Under(attr, e1, 0x31, vals, e2) && Under(vals, 0, 0x04, sha(content), e3);
    UnderIsExact(attrs, pos, 0x30, attr, end);
    UnderIsExact(attr, 0, 0x06, MESSAGE_DIGEST, e1);
    UnderIsExact(attr, e1, 0x31, vals, e2);
    UnderIsExact(vals, 0, 0x04, sha(content), e3);
    ExpectEnds(attrs, pos, 0x30);
  }

  /** Where a digest matches, it stands right there or behind another attribute. */
  lemma MatchStep(attrs: bytes, pos: nat, content: bytes, sha: bytes -> bytes) returns (end: nat)
    requires DigestMatches(attrs, pos, content, sha)
    ensures DigestAttr(attrs, pos, sha(content))
            || (OtherAttr(attrs, pos, end) && pos < end <= |attrs| && DigestMatches(attrs, end, content, sha))
  {
    hide Under, ExpectAt;
    var attr := ExpectAt(attrs, pos, SEQUENCE).value.0;
    end := ExpectAt(attrs, pos, SEQUENCE).value.1;
    ExpectEnds(attrs, pos, SEQUENCE);
    UnderIsExact(attrs, pos, 0x30, attr, end);
    var (oid, e1) := ExpectAt(attr, 0, OID).value;
    UnderIsExact(attr, 0, 0x06, oid, e1);
    if oid == MESSAGE_DIGEST {
      var (vals, e2) := ExpectAt(attr, e1, SET).value;
      UnderIsExact(attr, e1, 0x31, vals, e2);
      var (d, e3) := ExpectAt(vals, 0, OCTETS).value;
      UnderIsExact(vals, 0, 0x04, d, e3);
    }
  }

  lemma {:induction false} NamedMatches(attrs: bytes, pos: nat, at: seq<nat>, content: bytes, sha: bytes -> bytes)
    requires Names(attrs, pos, at, sha(content))
    ensures DigestMatches(attrs, pos, content, sha)
    decreases |at|
  {
    hide OtherAttr, DigestAttr, DigestMatches;
    if |at| == 1 {
      DigestStep(attrs, pos, content, sha);
    } else {
      OtherStep(attrs, at[0], at[1], content, sha);
      NamedMatches(attrs, at[1], at[1..], content, sha);
    }
  }

  lemma {:induction false} MatchesNamed(attrs: bytes, pos: nat, content: bytes, sha: bytes -> bytes) returns (at: seq<nat>)
    requires DigestMatches(attrs, pos, content, sha)
    ensures Names(attrs, pos, at, sha(content))
    decreases |attrs| - pos
  {
    hide OtherAttr, DigestAttr, DigestMatches;
    var end := MatchStep(attrs, pos, content, sha);
    if DigestAttr(attrs, pos, sha(content)) {
      at := [pos];
    } else {
      var rest := MatchesNamed(attrs, end, content, sha);
      at := [pos] + rest;
      assert forall k :: 0 < k < |at| ==> at[k] == rest[k - 1];
    }
  }

  // ---------------------------------------------------------------- a signer

  /** What was signed, from the end `pos` of the digest algorithm on: without signed attributes the content itself;
      with them the attributes under the tag of a set, provided the first message digest among them is that of the
      content. */
  ghost predicate Signed(info: bytes, pos: nat, content: bytes, digest: bytes, signed: bytes, end: nat) {
    if pos < |info| && info[pos] == 0xA0 then
      && pos < end <= |info| && signed == [0x31] + info[pos + 1..end]
      && exists attrs: bytes, at: seq<nat> :: Under(info, pos, 0xA0, attrs, end) && Names(attrs, 0, at, digest)
    else signed == content && end == pos
  }

  /** Three items stand at the beginning, up to `end`. */
  ghost predicate ThreeItems(info: bytes, end: nat) {
    exists v: nat, sid: nat :: ItemAt(info, 0, v) && ItemAt(info, v, sid) && ItemAt(info, sid, end)
  }

  /** An item and an octet string stand at `pos`. */
  ghost predicate ItemAndOctets(info: bytes, pos: nat, octets: bytes) {
    exists next: nat, end: nat :: ItemAt(info, pos, next) && Under(info, next, 0x04, octets, end)
  }

  /** A signer info: version, signer id and digest algorithm, what was signed, an algorithm and the signature. */
  ghost predicate SignerIs(info: bytes, content: bytes, digest: bytes, s: Signer) {
    exists alg: nat, next: nat ::
      && ThreeItems(info, alg) && Signed(info, alg, content, digest, s.signedBytes, next)
      && ItemAndOctets(info, next, s.signature)
  }

  function SkipThree(info: bytes): Option<nat> {
    match Skip(info, 0)
    case None => None
    case Some(v) => match Skip(info, v) case None => None case Some(sid) => Skip(info, sid)
  }

  lemma SkipThreeIsExact(info: bytes, end: nat)
    ensures SkipThree(info) == Some(end) <==> ThreeItems(info, end)
  {
    hide ItemAt, Skip;
    if SkipThree(info) == Some(end) {
      var v := Skip(info, 0).value;
      var sid := Skip(info, v).value;
      SkipIsExact(info, 0, v);
      SkipIsExact(info, v, sid);
      SkipIsExact(info, sid, end);
    } else if v: nat, sid: nat :| ItemAt(info, 0, v) && ItemAt(info, v, sid) && ItemAt(info, sid, end) {
      SkipIsExact(info, 0, v);
      SkipIsExact(info, v, sid);
      SkipIsExact(info, sid, end);
    }
  }

  function OctetsBehind(info: bytes, pos: nat): Option<bytes> {
    match Skip(info, pos)
    case None => None
    case Some(next) => match ExpectAt(info, next, OCTETS) case Err(_) => None case Ok((octets, _)) => Some(octets)
  }

  lemma OctetsAreExact(info: bytes, pos: nat, octets: bytes)
    ensures OctetsBehind(info, pos) == Some(octets) <==> ItemAndOctets(info, pos, octets)
  {
    hide ItemAt, Skip, Under, ExpectAt;
    if OctetsBehind(info, pos) == Some(octets) {
      var next := Skip(info, pos).value;
      SkipIsExact(info, pos, next);
      UnderIsExact(info, next, 0x04, octets, ExpectAt(info, next, OCTETS).value.1);
    } else if next: nat, end: nat :| ItemAt(info, pos, next) && Under(info, next, 0x04, octets, end) {
      SkipIsExact(info, pos, next);
      UnderIsExact(info, next, 0x04, octets, end);
    }
  }

  lemma SignerInParts(info: bytes, content: bytes, sha: bytes -> bytes)
    ensures SignerParsed(info, content, sha)
            == match SkipThree(info)
               case None => None
               case Some(alg) =>
                 match SignedBytes(info, alg, content, sha)
                 case None => None
                 case Some(signed) =>
                   match OctetsBehind(info, signed.1) case None => None case Some(sig) => Some(Signer(signed.0, sig))
  {
    hide Skip, ExpectAt, SignedBytes;
  }

  lemma SignedIsExact(info: bytes, pos: nat, content: bytes, sha: bytes -> bytes, signed: bytes, end: nat)
    ensures SignedBytes(info, pos, content, sha) == Some((signed, end))
            <==> Signed(info, pos, content, sha(content), signed, end)
  {
    hide Under, DigestMatches, Names, ReadItem;
    if pos < |info| && info[pos] == 0xA0 {
      if SignedBytes(info, pos, content, sha) == Some((signed, end)) {
        var item := ReadItem(info, pos).value.0;
        RawItem(info, pos, item, end);
        ItemIsUnder(info, pos, item, end);
        var at := MatchesNamed(item.content, 0, content, sha);
      } else if Signed(info, pos, content, sha(content), signed, end) {
        var attrs: bytes, at: seq<nat> :| Under(info, pos, 0xA0, attrs, end) && Names(attrs, 0, at, sha(content));
        UnderIsExact(info, pos, 0xA0, attrs, end);
        NamedMatches(attrs, 0, at, content, sha);
        RawItem(info, pos, ReadItem(info, pos).value.0, end);
      }
    }
  }

  lemma RawItem(buf: bytes, pos: nat, item: Item, end: nat)
    requires ReadItem(buf, pos) == Ok((item, end))
    ensures pos < end <= |buf| && item.raw == buf[pos..end] && item.tag == buf[pos] && item.raw[1..] == buf[pos + 1..end]
  {
  }

  /** A signer info is read exactly if it is one. */
  lemma SignerIsExact(info: bytes, content: bytes, sha: bytes -> bytes, s: Signer)
    ensures SignerParsed(info, content, sha) == Some(s) <==> SignerIs(info, content, sha(content), s)
  {
    hide ThreeItems, ItemAndOctets, Signed, SkipThree, OctetsBehind, SignedBytes, SignerParsed;
    SignerInParts(info, content, sha);
    if SignerParsed(info, content, sha) == Some(s) {
      var alg := SkipThree(info).value;
      SkipThreeIsExact(info, alg);
      var next := SignedBytes(info, alg, content, sha).value.1;
      SignedIsExact(info, alg, content, sha, s.signedBytes, next);
      OctetsAreExact(info, next, s.signature);
    } else if SignerIs(info, content, sha(content), s) {
      var alg: nat, next: nat :|
        && ThreeItems(info, alg) && Signed(info, alg, content, sha(content), s.signedBytes, next)
        && ItemAndOctets(info, next, s.signature);
      SkipThreeIsExact(info, alg);
      SignedIsExact(info, alg, content, sha, s.signedBytes, next);
      OctetsAreExact(info, next, s.signature);
    }
  }

  // ---------------------------------------------------------------- signed data

  /** An optional part, under a context tag 0 or 1, stands at `pos` and ends at `end`. */
  ghost predicate Part(sd: bytes, pos: nat, end: nat) {
    exists tag: uint8, content: bytes :: (tag == 0xA0 || tag == 0xA1) && Under(sd, pos, tag, content, end)
  }

  lemma PartIsSkipped(sd: bytes, pos: nat, end: nat)
    ensures Part(sd, pos, end) <==>
              pos < |sd| && (sd[pos] == 0xA0 || sd[pos] == 0xA1) && Skip(sd, pos) == Some(end)
    ensures Part(sd, pos, end) ==> pos < end <= |sd|
  {
    hide Under, ReadItem;
    if Part(sd, pos, end) {
      var tag: uint8, content: bytes :| (tag == 0xA0 || tag == 0xA1) && Under(sd, pos, tag, content, end);
      UnderIsExact(sd, pos, tag, content, end);
      RawItem(sd, pos, ReadItem(sd, pos).value.0, end);
    } else if pos < |sd| && (sd[pos] == 0xA0 || sd[pos] == 0xA1) && Skip(sd, pos) == Some(end) {
      var item := ReadItem(sd, pos).value.0;
      RawItem(sd, pos, item, end);
      ItemIsUnder(sd, pos, item, end);
    }
  }

  /** From `pos` on stand optional parts at the positions `at`, and no further one behind them at `end`. */
  ghost predicate Optional(sd: bytes, pos: nat, at: seq<nat>, end: nat) {
    && at != [] && at[0] == pos && at[|at| - 1] == end
    && (forall k :: 0 <= k < |at| - 1 ==> Part(sd, at[k], at[k + 1]))
    && !(end < |sd| && (sd[end] == 0xA0 || sd[end] == 0xA1))
  }

  lemma {:induction false} OptionalSkips(sd: bytes, pos: nat, at: seq<nat>, end: nat)
    requires Optional(sd, pos, at, end)
    ensures SkipOptional(sd, pos) == Some(end)
    decreases |at|
  {
    hide Part, Skip;
    if |at| > 1 {
      PartIsSkipped(sd, at[0], at[1]);
      OptionalSkips(sd, at[1], at[1..], end);
    }
  }

  lemma {:induction false} SkipsOptional(sd: bytes, pos: nat, end: nat) returns (at: seq<nat>)
    requires SkipOptional(sd, pos) == Some(end)
    ensures Optional(sd, pos, at, end)
    decreases |sd| - pos
  {
    hide Part, Skip;
    at := [pos];
    if pos < |sd| && (sd[pos] == 0xA0 || sd[pos] == 0xA1) {
      var next := Skip(sd, pos).value;
      PartIsSkipped(sd, pos, next);
      var rest := SkipsOptional(sd, next, end);
      at := at + rest;
      assert forall k :: 0 < k < |at| ==> at[k] == rest[k - 1];
    }
  }

  /** Behind the optional parts stands a set, and the first in it is this signer. */
  ghost predicate FirstSignerIs(sd: bytes, pos: nat, content: bytes, digest: bytes, s: Signer) {
    exists at: seq<nat>, end: nat, infos: bytes, e1: nat, info: bytes, e2: nat ::
      && Optional(sd, pos, at, end) && Under(sd, end, 0x31, infos, e1) && Under(infos, 0, 0x30, info, e2)
      && SignerIs(info, content, digest, s)
  }

  lemma FirstSignerIsExact(sd: bytes, pos: nat, content: bytes, sha: bytes -> bytes, s: Signer)
    ensures FirstSigner(sd, pos, content, sha) == Some(s) <==> FirstSignerIs(sd, pos, content, sha(content), s)
  {
    hide Optional, Under, SignerIs, SkipOptional, ExpectAt, SignerParsed;
    if FirstSigner(sd, pos, content, sha) == Some(s) {
      var end := SkipOptional(sd, pos).value;
      var at := SkipsOptional(sd, pos, end);
      var (infos, e1) := ExpectAt(sd, end, SET).value;
      UnderIsExact(sd, end, 0x31, infos, e1);
      var (info, e2) := ExpectAt(infos, 0, SEQUENCE).value;
      UnderIsExact(infos, 0, 0x30, info, e2);
      SignerIsExact(info, content, sha, s);
    } else if FirstSignerIs(sd, pos, content, sha(content), s) {
      var at: seq<nat>, end: nat, infos: bytes, e1: nat, info: bytes, e2: nat :|
        && Optional(sd, pos, at, end) && Under(sd, end, 0x31, infos, e1) && Under(infos, 0, 0x30, info, e2)
        && SignerIs(info, content, sha(content), s);
      OptionalSkips(sd, pos, at, end);
      UnderIsExact(sd, end, 0x31, infos, e1);
      UnderIsExact(infos, 0, 0x30, info, e2);
      SignerIsExact(info, content, sha, s);
    }
  }

  /** An object identifier, and under the context tag 0 an item with the tag and the content. */
  ghost predicate Enclosed(buf: bytes, tag: uint8, content: bytes) {
    exists oid: bytes, e1: nat, wrap: bytes, e2: nat, e3: nat ::
      Under(buf, 0, 0x06, oid, e1) && Under(buf, e1, 0xA0, wrap, e2) && Under(wrap, 0, tag, content, e3)
  }

  /** The item under the tag in the wrapper, if all parts are there. */
  function EnclosedIn(buf: bytes, tag: uint8): Option<bytes> {
    match ExpectAt(buf, 0, OID)
    case Err(_) => None
    case Ok((_, end)) =>
      match ExpectAt(buf, end, CONTEXT0)
      case Err(_) => None
      case Ok((wrap, _)) => match ExpectAt(wrap, 0, tag) case Err(_) => None case Ok((content, _)) => Some(content)
  }

  lemma EnclosedIsExact(buf: bytes, tag: uint8, content: bytes)
    ensures EnclosedIn(buf, tag) == Some(content) <==> Enclosed(buf, tag, content)
  {
    hide Under, ExpectAt;
    if EnclosedIn(buf, tag) == Some(content) {
      var (oid, e1) := ExpectAt(buf, 0, OID).value;
      var (wrap, e2) := ExpectAt(buf, e1, CONTEXT0).value;
      var e3 := ExpectAt(wrap, 0, tag).value.1;
      UnderIsExact(buf, 0, 0x06, oid, e1);
      UnderIsExact(buf, e1, 0xA0, wrap, e2);
      UnderIsExact(wrap, 0, tag, content, e3);
    } else if oid: bytes, e1: nat, wrap: bytes, e2: nat, e3: nat :|
      Under(buf, 0, 0x06, oid, e1) && Under(buf, e1, 0xA0, wrap, e2) && Under(wrap, 0, tag, content, e3)
    {
      UnderIsExact(buf, 0, 0x06, oid, e1);
      UnderIsExact(buf, e1, 0xA0, wrap, e2);
      UnderIsExact(wrap, 0, tag, content, e3);
    }
  }

  /** A version, digest algorithms, and the content in its wrapper, which ends at `behind`. */
  ghost predicate ContentIs(sd: bytes, content: bytes, behind: nat) {
    exists v: nat, algs: nat, eci: bytes ::
      ItemAt(sd, 0, v) && ItemAt(sd, v, algs) && Under(sd, algs, 0x30, eci, behind) && Enclosed(eci, 0x04, content)
  }

  lemma DataInParts(sd: bytes, sha: bytes -> bytes, content: bytes, signer: Option<Signer>)
    ensures SignedDataParsed(sd, sha) == Ok((content, signer)) <==>
              && Skip(sd, 0).Some? && Skip(sd, Skip(sd, 0).value).Some?
              && ExpectAt(sd, Skip(sd, Skip(sd, 0).value).value, SEQUENCE).Ok?
              && var (eci, behind) := ExpectAt(sd, Skip(sd, Skip(sd, 0).value).value, SEQUENCE).value;
                 EnclosedIn(eci, OCTETS) == Some(content) && signer == FirstSigner(sd, behind, content, sha)
  {
    hide Skip, ExpectAt, FirstSigner;
  }

  lemma ContentIsExact(sd: bytes, content: bytes, sha: bytes -> bytes, signer: Option<Signer>)
    ensures SignedDataParsed(sd, sha) == Ok((content, signer)) <==>
              exists behind: nat :: ContentIs(sd, content, behind) && signer == FirstSigner(sd, behind, content, sha)
  {
    hide ItemAt, Under, ExpectAt, Skip, FirstSigner, Enclosed, EnclosedIn, SignedDataParsed;
    DataInParts(sd, sha, content, signer);
    if SignedDataParsed(sd, sha) == Ok((content, signer)) {
      var v := Skip(sd, 0).value;
      var algs := Skip(sd, v).value;
      var (eci, behind) := ExpectAt(sd, algs, SEQUENCE).value;
      SkipIsExact(sd, 0, v);
      SkipIsExact(sd, v, algs);
      UnderIsExact(sd, algs, 0x30, eci, behind);
      EnclosedIsExact(eci, 0x04, content);
      assert ContentIs(sd, content, behind);
    } else if behind: nat :| ContentIs(sd, content, behind) && signer == FirstSigner(sd, behind, content, sha) {
      var v: nat, algs: nat, eci: bytes :|
        ItemAt(sd, 0, v) && ItemAt(sd, v, algs) && Under(sd, algs, 0x30, eci, behind) && Enclosed(eci, 0x04, content);
      SkipIsExact(sd, 0, v);
      SkipIsExact(sd, v, algs);
      UnderIsExact(sd, algs, 0x30, eci, behind);
      EnclosedIsExact(eci, 0x04, content);
    }
  }

  /** Signed data in its wrappers. */
  ghost predicate Wrapped(der: bytes, sd: bytes) {
    exists ci: bytes, end: nat :: Under(der, 0, 0x30, ci, end) && Enclosed(ci, 0x30, sd)
  }

  lemma WrappedIsExact(der: bytes, sha: bytes -> bytes, content: bytes, signer: Option<Signer>)
    ensures CmsParsed(der, sha) == Ok((content, signer)) <==>
              exists sd: bytes :: Wrapped(der, sd) && SignedDataParsed(sd, sha) == Ok((content, signer))
  {
    hide Under, ExpectAt, Enclosed, EnclosedIn, SignedDataParsed;
    CmsInParts(der, sha, content, signer);
    if CmsParsed(der, sha) == Ok((content, signer)) {
      var (ci, end) := ExpectAt(der, 0, SEQUENCE).value;
      UnderIsExact(der, 0, 0x30, ci, end);
      EnclosedIsExact(ci, 0x30, EnclosedIn(ci, SEQUENCE).value);
      assert Wrapped(der, EnclosedIn(ci, SEQUENCE).value);
    } else if sd: bytes :| Wrapped(der, sd) && SignedDataParsed(sd, sha) == Ok((content, signer)) {
      var ci: bytes, end: nat :| Under(der, 0, 0x30, ci, end) && Enclosed(ci, 0x30, sd);
      UnderIsExact(der, 0, 0x30, ci, end);
      EnclosedIsExact(ci, 0x30, sd);
    }
  }

  lemma CmsInParts(der: bytes, sha: bytes -> bytes, content: bytes, signer: Option<Signer>)
    ensures CmsParsed(der, sha) == Ok((content, signer)) <==>
              && ExpectAt(der, 0, SEQUENCE).Ok?
              && EnclosedIn(ExpectAt(der, 0, SEQUENCE).value.0, SEQUENCE).Some?
              && SignedDataParsed(EnclosedIn(ExpectAt(der, 0, SEQUENCE).value.0, SEQUENCE).value, sha) == Ok((content, signer))
  {
    hide ExpectAt, SignedDataParsed;
  }

  /** A message is read exactly if it is content in its wrappers; its signer is read exactly if the first signer
      behind the content is one, and then the bytes to check are the content, or the signed attributes that name
      the content's digest. */
  lemma CmsIsExact(der: bytes, content: bytes, sha: bytes -> bytes, signer: Option<Signer>)
    ensures CmsParsed(der, sha) == Ok((content, signer)) <==>
              exists sd: bytes, behind: nat ::
                && Wrapped(der, sd) && ContentIs(sd, content, behind)
                && forall s: Signer :: signer == Some(s) <==> FirstSignerIs(sd, behind, content, sha(content), s)
  {
    hide Wrapped, ContentIs, SignedDataParsed, FirstSignerIs, FirstSigner, CmsParsed;
    forall sd: bytes, behind: nat
      ensures signer == FirstSigner(sd, behind, content, sha) <==>
                forall s: Signer :: signer == Some(s) <==> FirstSignerIs(sd, behind, content, sha(content), s)
    {
      SignerOption(sd, behind, content, sha, signer);
    }
    WrappedIsExact(der, sha, content, signer);
    forall sd: bytes
      ensures SignedDataParsed(sd, sha) == Ok((content, signer)) <==>
                exists behind: nat :: ContentIs(sd, content, behind) && signer == FirstSigner(sd, behind, content, sha)
    {
      ContentIsExact(sd, content, sha, signer);
    }
  }

  lemma SignerOption(sd: bytes, behind: nat, content: bytes, sha: bytes -> bytes, signer: Option<Signer>)
    ensures signer == FirstSigner(sd, behind, content, sha) <==>
              forall s: Signer :: signer == Some(s) <==> FirstSignerIs(sd, behind, content, sha(content), s)
  {
    hide FirstSigner, FirstSignerIs;
    var f := FirstSigner(sd, behind, content, sha);
    forall s: Signer
      ensures f == Some(s) <==> FirstSignerIs(sd, behind, content, sha(content), s)
    {
      FirstSignerIsExact(sd, behind, content, sha, s);
    }
    if signer.Some? { assert signer == Some(signer.value); }
    if f.Some? { assert f == Some(f.value); }
  }
}
