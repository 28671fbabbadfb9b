/** Writing and reading certificates with a TLV writer and reader (crates/mat-controller/src/cert.rs). */
module CertStream {
  import opened Wrappers
  import opened TlvCodec
  import opened TlvStream
  import opened TlvTrees
  import opened Records
  import opened Certificate

  // ---------------------------------------------------------------- writing

  lemma TakeOneMore(ts: seq<Tree>, k: nat)
    requires k < |ts| && ProperAll(ts)
    ensures ProperAll(ts[..k]) && Proper(ts[k]) && ProperAll(ts[..k + 1])
    ensures ForestBytes(ts[..k + 1]) == ForestBytes(ts[..k]) + TreeBytes(ts[k])
  {
    hide TreeBytes, ForestBytes, Proper;
    assert ts[..k + 1] == ts[..k] + [ts[k]];
    ForestSnoc(ts[..k], ts[k]);
  }

  lemma WholeForest(ts: seq<Tree>)
    requires ProperAll(ts)
    ensures ProperAll(ts[..0]) && ForestBytes(ts[..0]) == [] && ts[..|ts|] == ts
  {
  }

  lemma BranchBytes(tag: Tag, s: Value, kids: seq<Tree>, before: bytes)
    requires Proper(Branch(tag, s, kids))
    ensures ((before + Enc(Element(tag, s))) + ForestBytes(kids)) + Enc(END) == before + TreeBytes(Branch(tag, s, kids))
  {
    hide Enc;
    var a, b, c := Enc(Element(tag, s)), ForestBytes(kids), Enc(END);
    assert before + (a + (b + c)) == ((before + a) + b) + c;
  }

  lemma DnKids(ctx: uint8, attrs: seq<DnAttr>)
    requires forall k :: 0 <= k < |attrs| ==> DnOk(attrs[k])
    ensures ProperAll(DnTrees(attrs))
  {
    DnProper(ctx, attrs);
    hide DnTrees, ProperAll;
  }

  method WriteDn(w: Writer, ctx: uint8, attrs: seq<DnAttr>)
    requires forall k :: 0 <= k < |attrs| ==> DnOk(attrs[k])
    modifies w
    ensures Proper(DnList(ctx, attrs)) && w.buf == old(w.buf) + TreeBytes(DnList(ctx, attrs)) && w.depth == old(w.depth)
  {
    hide Enc, TreeBytes, ForestBytes, ProperAll, Proper;
    DnProper(ctx, attrs);
    DnKids(ctx, attrs);
    ghost var ts := DnTrees(attrs);
    WholeForest(ts);
    w.Start(Context(ctx), ListStart);
    ghost var opening := w.buf;
    assert opening + [] == opening;
    for k := 0 to |attrs|
      invariant w.depth == old(w.depth) + 1
      invariant ProperAll(ts[..k]) && w.buf == opening + ForestBytes(ts[..k])
    {
      TakeOneMore(ts, k);
      assert ts[k] == DnTree(attrs[k]);
      LeafBytes(ts[k]);
      match attrs[k].value {
        case MatterId(id) => w.PutUint(Context(attrs[k].tlvTag), id);
        case Text(s) => w.PutStr(Context(attrs[k].tlvTag), s);
      }
      ConcatAssoc(opening, ForestBytes(ts[..k]), TreeBytes(ts[k]));
    }
    w.EndContainer();
    BranchBytes(Context(ctx), ListStart, ts, old(w.buf));
  }

  lemma LeafBytes(t: Tree)
    requires Proper(t) && t.Leaf?
    ensures Writable(t.value) && TreeBytes(t) == Enc(Element(t.tag, t.value))
  {
    hide Enc;
  }

  method WritePurposes(w: Writer, ps: seq<uint64>)
    modifies w
    ensures Proper(ExtTree(ExtendedKeyUsage(ps)))
    ensures w.buf == old(w.buf) + TreeBytes(ExtTree(ExtendedKeyUsage(ps))) && w.depth == old(w.depth)
  {
    hide Enc, TreeBytes, ForestBytes, ProperAll, Proper;
    ExtProper(ExtendedKeyUsage(ps));
    ghost var ts := Purposes(ps);
    BranchKids(ExtTree(ExtendedKeyUsage(ps)));
    WholeForest(ts);
    w.Start(Context(3), ArrayStart);
    ghost var opening := w.buf;
    assert opening + [] == opening;
    for k := 0 to |ps|
      invariant w.depth == old(w.depth) + 1
      invariant ProperAll(ts[..k]) && w.buf == opening + ForestBytes(ts[..k])
    {
      TakeOneMore(ts, k);
      assert ts[k] == Leaf(Anonymous, Uint(ps[k]));
      LeafBytes(ts[k]);
      w.PutUint(Anonymous, ps[k]);
      ConcatAssoc(opening, ForestBytes(ts[..k]), TreeBytes(ts[k]));
    }
    w.EndContainer();
    BranchBytes(Context(3), ArrayStart, ts, old(w.buf));
  }

  lemma BranchKids(t: Tree)
    requires Proper(t) && t.Branch?
    ensures IsStart(t.start) && ProperAll(t.kids)
  {
  }

  method WriteBasic(w: Writer, isCa: bool, pathLen: Option<uint8>)
    modifies w
    ensures Proper(ExtTree(BasicConstraints(isCa, pathLen)))
    ensures w.buf == old(w.buf) + TreeBytes(ExtTree(BasicConstraints(isCa, pathLen))) && w.depth == old(w.depth)
  {
    hide Enc, TreeBytes, ForestBytes, ProperAll, Proper;
    ExtProper(BasicConstraints(isCa, pathLen));
    ghost var ts := BasicTrees(isCa, pathLen);
    BranchKids(ExtTree(BasicConstraints(isCa, pathLen)));
    WholeForest(ts);
    w.Start(Context(1), StructStart);
    ghost var opening := w.buf;
    assert opening + [] == opening;
    TakeOneMore(ts, 0);
    LeafBytes(ts[0]);
    w.PutBare(Context(1), Bool(isCa));
    if pathLen.Some? {
      TakeOneMore(ts, 1);
      LeafBytes(ts[1]);
      ConcatAssoc(opening, TreeBytes(ts[0]), TreeBytes(ts[1]));
      w.PutUint(Context(2), pathLen.value);
    }
    w.EndContainer();
    NothingBefore(ts);
    BranchBytes(Context(1), StructStart, ts, old(w.buf));
  }

  lemma NothingBefore(ts: seq<Tree>)
    requires ProperAll(ts) && 1 <= |ts| <= 2
    ensures ForestBytes(ts) == TreeBytes(ts[0]) + if |ts| == 2 then TreeBytes(ts[1]) else []
  {
    hide TreeBytes, Proper;
    if |ts| == 2 { assert ts[1..][1..] == [] && TreeBytes(ts[1]) + [] == TreeBytes(ts[1]); }
  }

  method WriteExtension(w: Writer, e: CertExtension)
    requires ExtOk(e)
    modifies w
    ensures Proper(ExtTree(e)) && w.buf == old(w.buf) + TreeBytes(ExtTree(e)) && w.depth == old(w.depth)
  {
    hide Enc, TreeBytes, ProperAll, Proper;
    ExtProper(e);
    match e
    case BasicConstraints(isCa, pathLen) => WriteBasic(w, isCa, pathLen);
    case KeyUsage(bits) =>
      LeafBytes(ExtTree(e));
      w.PutUint(Context(2), bits);
    case ExtendedKeyUsage(ps) => WritePurposes(w, ps);
    case SubjectKeyId(id) =>
      LeafBytes(ExtTree(e));
      w.PutBytes(Context(4), id);
    case AuthorityKeyId(id) =>
      LeafBytes(ExtTree(e));
      w.PutBytes(Context(5), id);
  }

  method WriteExtensions(w: Writer, es: seq<CertExtension>)
    requires forall k :: 0 <= k < |es| ==> ExtOk(es[k])
    requires Proper(ExtList(es))
    modifies w
    ensures w.buf == old(w.buf) + TreeBytes(ExtList(es)) && w.depth == old(w.depth)
  {
    hide Enc, TreeBytes, ForestBytes, ProperAll, Proper, ExtTree;
    ghost var ts := ExtTrees(es);
    BranchKids(ExtList(es));
    WholeForest(ts);
    w.Start(Context(10), ListStart);
    ghost var opening := w.buf;
    assert opening + [] == opening;
    for k := 0 to |es|
      invariant w.depth == old(w.depth) + 1
      invariant ProperAll(ts[..k]) && w.buf == opening + ForestBytes(ts[..k])
    {
      TakeOneMore(ts, k);
      assert ts[k] == ExtTree(es[k]);
      WriteExtension(w, es[k]);
      ConcatAssoc(opening, ForestBytes(ts[..k]), TreeBytes(ts[k]));
    }
    w.EndContainer();
    BranchBytes(Context(10), ListStart, ts, old(w.buf));
  }

  /** Having written the first `k` fields. */
  ghost predicate Wrote(w: Writer, c: MatterCert, k: nat)
    requires WellTyped(c) && k <= 11
    reads w
  {
    CertProper(c);
    && w.depth == 1
    && ProperAll(CertTrees(c)[..k])
    && w.buf == Enc(Element(Anonymous, StructStart)) + ForestBytes(CertTrees(c)[..k])
  }

  lemma WroteMore(c: MatterCert, k: nat, before: bytes, after: bytes)
    requires WellTyped(c) && k < 11 && ProperAll(CertTrees(c)[..k]) && Proper(CertTrees(c)[k])
    requires before == Enc(Element(Anonymous, StructStart)) + ForestBytes(CertTrees(c)[..k])
    requires after == before + TreeBytes(CertTrees(c)[k])
    ensures ProperAll(CertTrees(c)[..k + 1])
    ensures after == Enc(Element(Anonymous, StructStart)) + ForestBytes(CertTrees(c)[..k + 1])
  {
    hide Enc, TreeBytes, ForestBytes, ProperAll, Proper, CertTrees;
    CertProper(c);
    TakeOneMore(CertTrees(c), k);
    ConcatAssoc(Enc(Element(Anonymous, StructStart)), ForestBytes(CertTrees(c)[..k]), TreeBytes(CertTrees(c)[k]));
  }

  /** Writes field `k`, when it is a leaf. */
  method PutField(w: Writer, ghost c: MatterCert, ghost k: nat, tag: Tag, v: Value)
    requires WellTyped(c) && k < 11 && Wrote(w, c, k) && CertTrees(c)[k] == Leaf(tag, v)
    requires Writable(v) && !IsStart(v) && !v.ContainerEnd?
    modifies w
    ensures Wrote(w, c, k + 1)
  {
    hide Enc, TreeBytes, ForestBytes, ProperAll, CertTrees;
    CertProper(c);
    TakeOneMore(CertTrees(c), k);
    LeafBytes(CertTrees(c)[k]);
    ghost var before := w.buf;
    w.Put(tag, v);
    WroteMore(c, k, before, w.buf);
  }

  method CertToTlv(c: MatterCert) returns (out: bytes)
    requires WellTyped(c)
    ensures out == ToTlv(c)
  {
    hide Enc, TreeBytes, ForestBytes, ProperAll, Proper, DnList, ExtList;
    CertProper(c);
    WholeForest(CertTrees(c));
    var w := new Writer();
    w.Start(Anonymous, StructStart);
    assert Wrote(w, c, 0) by { assert w.buf == [] + Enc(Element(Anonymous, StructStart)) == Enc(Element(Anonymous, StructStart)) + []; }
    FirstFields(w, c);
    LastFields(w, c);
    w.EndContainer();
    RecordBytes(CertTrees(c));
    return w.buf;
  }

  lemma RecordBytes(ts: seq<Tree>)
    requires ProperAll(ts)
    ensures (Enc(Element(Anonymous, StructStart)) + ForestBytes(ts)) + Enc(END) == StructBytes(ts)
  {
    hide Enc;
    ConcatAssoc(Enc(Element(Anonymous, StructStart)), ForestBytes(ts), Enc(END));
  }

  method FirstFields(w: Writer, c: MatterCert)
    requires WellTyped(c) && Wrote(w, c, 0)
    modifies w
    ensures Wrote(w, c, 6)
  {
    hide Enc, TreeBytes, ForestBytes, ProperAll, Proper, DnList, ExtList, Wrote;
    PutField(w, c, 0, Context(1), Bytes(c.serial));
    PutField(w, c, 1, Context(2), Uint(1));
    PutDn(w, c, 2, 3, c.issuer);
    PutField(w, c, 3, Context(4), Uint(c.notBefore));
    PutField(w, c, 4, Context(5), Uint(c.notAfter));
    PutDn(w, c, 5, 6, c.subject);
  }

  method PutDn(w: Writer, ghost c: MatterCert, ghost k: nat, ctx: uint8, attrs: seq<DnAttr>)
    requires WellTyped(c) && k < 11 && Wrote(w, c, k) && CertTrees(c)[k] == DnList(ctx, attrs)
    requires forall j :: 0 <= j < |attrs| ==> DnOk(attrs[j])
    modifies w
    ensures Wrote(w, c, k + 1)
  {
    hide Enc, TreeBytes, ForestBytes, ProperAll, Proper, CertTrees, DnList;
    ghost var before := w.buf;
    WriteDn(w, ctx, attrs);
    WroteMore(c, k, before, w.buf);
  }

  method LastFields(w: Writer, c: MatterCert)
    requires WellTyped(c) && Wrote(w, c, 6)
    modifies w
    ensures Wrote(w, c, 11)
  {
    hide Enc, TreeBytes, ForestBytes, ProperAll, Proper, DnList, ExtList, Wrote;
    PutField(w, c, 6, Context(7), Uint(1));
    PutField(w, c, 7, Context(8), Uint(1));
    PutField(w, c, 8, Context(9), Bytes(c.pubKey));
    PutExtensions(w, c);
    PutField(w, c, 10, Context(11), Bytes(c.signature));
  }

  method PutExtensions(w: Writer, c: MatterCert)
    requires WellTyped(c) && Wrote(w, c, 9)
    modifies w
    ensures Wrote(w, c, 10)
  {
    hide Enc, TreeBytes, ForestBytes, ProperAll, Proper, ExtList;
    ghost var before := w.buf;
    CertProper(c);
    WriteExtensions(w, c.extensions);
    WroteMore(c, 9, before, w.buf);
  }

  // ---------------------------------------------------------------- reading

  /** What a reader of a container returns and where it stands afterwards. */
  ghost predicate ReadAs<T>(buf: bytes, start: nat, pos: nat, r: Option<T>, of: seq<Tree> -> Option<T>) {
    match Parse(buf, start)
    case Err(_) => r.None?
    case Ok((kids, end)) => r == of(kids) && (r.Some? ==> pos == end)
  }

  method ParseDn(rd: Reader) returns (r: Option<seq<DnAttr>>)
    requires rd.Valid()
    modifies rd
    ensures rd.Valid() && ReadAs(rd.buf, old(rd.pos), rd.pos, r, DnOf)
    ensures r.Some? ==> rd.pos > old(rd.pos)
  {
    hide Read, Parse, Progress, Fold;
    var attrs: seq<DnAttr> := [];
    ghost var start, done: seq<Tree> := rd.pos, [];
    ProgressStart(rd.buf, start);
    FoldNothing<seq<DnAttr>>([], DnStep);
    while true
      invariant rd.Valid() && start <= rd.pos && Progress(rd.buf, start, rd.pos, done)
      invariant Fold(done, [], DnStep) == Some(attrs)
      decreases |rd.buf| - rd.pos
    {
      ProgressStep(rd.buf, start, rd.pos, done);
      var el := rd.Next();
      if el.Err? || el.value.None? { return None; }
      var e := el.value.value;
      if e.value.ContainerEnd? { return Some(attrs); }
      ghost var t := ParseTree(rd.buf, rd.pos, e);
      if !e.tag.Context? || !(e.value.Uint? || e.value.Utf8?) {
        if t.Ok? { BadElement(rd.buf, start, t.value.1, done, t.value.0, [], DnStep); }
        return None;
      }
      FoldSnoc(done, t.value.0, [], DnStep);
      done := done + [t.value.0];
      attrs := attrs + [DnAttr(e.tag.t, if e.value.Uint? then MatterId(e.value.u) else Text(e.value.text))];
    }
  }

  method ParseBasic(rd: Reader) returns (r: Option<CertExtension>)
    requires rd.Valid()
    modifies rd
    ensures rd.Valid() && ReadAs(rd.buf, old(rd.pos), rd.pos, r, BasicOf)
    ensures r.Some? ==> rd.pos > old(rd.pos)
  {
    hide Read, Parse, Progress, Fold;
    var isCa: Option<bool>, pathLen: Option<uint8> := None, None;
    ghost var start, done: seq<Tree> := rd.pos, [];
    ProgressStart(rd.buf, start);
    FoldNothing(Basic(None, None), BasicStep);
    while true
      invariant rd.Valid() && start <= rd.pos && Progress(rd.buf, start, rd.pos, done)
      invariant Fold(done, Basic(None, None), BasicStep) == Some(Basic(isCa, pathLen))
      decreases |rd.buf| - rd.pos
    {
      ProgressStep(rd.buf, start, rd.pos, done);
      var el := rd.Next();
      if el.Err? || el.value.None? { return None; }
      var e := el.value.value;
      if e.value.ContainerEnd? {
        if isCa.None? { return None; }
        return Some(BasicConstraints(isCa.value, pathLen));
      }
      ghost var t := ParseTree(rd.buf, rd.pos, e);
      if e.value.Bool? && e.tag == Context(1) {
        isCa := Some(e.value.b);
      } else if e.value.Uint? && e.tag == Context(2) && e.value.u < 0x100 {
        pathLen := Some(e.value.u);
      } else {
        if t.Ok? { BadElement(rd.buf, start, t.value.1, done, t.value.0, Basic(None, None), BasicStep); }
        return None;
      }
      FoldSnoc(done, t.value.0, Basic(None, None), BasicStep);
      done := done + [t.value.0];
    }
  }

  method ParsePurposes(rd: Reader) returns (r: Option<seq<uint64>>)
    requires rd.Valid()
    modifies rd
    ensures rd.Valid() && ReadAs(rd.buf, old(rd.pos), rd.pos, r, PurposesOf)
    ensures r.Some? ==> rd.pos > old(rd.pos)
  {
    hide Read, Parse, Progress, Fold;
    var vals: seq<uint64> := [];
    ghost var start, done: seq<Tree> := rd.pos, [];
    ProgressStart(rd.buf, start);
    FoldNothing<seq<uint64>>([], PurposeStep);
    while true
      invariant rd.Valid() && start <= rd.pos && Progress(rd.buf, start, rd.pos, done)
      invariant Fold(done, [], PurposeStep) == Some(vals)
      decreases |rd.buf| - rd.pos
    {
      ProgressStep(rd.buf, start, rd.pos, done);
      var el := rd.Next();
      if el.Err? || el.value.None? { return None; }
      var e := el.value.value;
      if e.value.ContainerEnd? { return Some(vals); }
      ghost var t := ParseTree(rd.buf, rd.pos, e);
      if !e.value.Uint? {
        if t.Ok? { BadElement(rd.buf, start, t.value.1, done, t.value.0, [], PurposeStep); }
        return None;
      }
      vals := vals + [e.value.u];
      FoldSnoc(done, t.value.0, [], PurposeStep);
      done := done + [t.value.0];
    }
  }

  /** One extension whose first element was read; `None` if it is bad. */
  method ParseExtension(rd: Reader, e: Element, ghost es: seq<CertExtension>) returns (r: Option<CertExtension>)
    requires rd.Valid() && Writable(e.value) && !e.value.ContainerEnd?
    modifies rd
    ensures rd.Valid()
    ensures var t := ParseTree(rd.buf, old(rd.pos), e);
            if t.Err? then r.None?
            else
              && (r.None? <==> ExtStep(es, t.value.0).None?)
              && (r.Some? ==> ExtStep(es, t.value.0) == Some(es + [r.value]) && rd.pos == t.value.1)
    ensures r.Some? ==> rd.pos >= old(rd.pos)
  {
    hide Read, Parse, Fold, BasicOf, PurposesOf;
    if !e.tag.Context? { return None; }
    if e.tag.t == 1 && e.value.StructStart? {
      r := ParseBasic(rd);
    } else if e.tag.t == 2 && e.value.Uint? {
      r := if e.value.u < 0x1_0000 then Some(KeyUsage(e.value.u)) else None;
    } else if e.tag.t == 3 && e.value.ArrayStart? {
      var ps := ParsePurposes(rd);
      r := if ps.Some? then Some(ExtendedKeyUsage(ps.value)) else None;
    } else if e.tag.t == 4 && e.value.Bytes? {
      r := Some(SubjectKeyId(e.value.data));
    } else if e.tag.t == 5 && e.value.Bytes? {
      r := Some(AuthorityKeyId(e.value.data));
    } else {
      r := None;
    }
  }

  method ParseExtensions(rd: Reader) returns (r: Option<seq<CertExtension>>)
    requires rd.Valid()
    modifies rd
    ensures rd.Valid() && ReadAs(rd.buf, old(rd.pos), rd.pos, r, ExtsOf)
    ensures r.Some? ==> rd.pos > old(rd.pos)
  {
    hide Read, Parse, Progress, Fold, ExtStep, ParseTree;
    var exts: seq<CertExtension> := [];
    ghost var start, done: seq<Tree> := rd.pos, [];
    ProgressStart(rd.buf, start);
    FoldNothing<seq<CertExtension>>([], ExtStep);
    while true
      invariant rd.Valid() && start <= rd.pos && Progress(rd.buf, start, rd.pos, done)
      invariant Fold(done, [], ExtStep) == Some(exts)
      decreases |rd.buf| - rd.pos
    {
      ProgressStep(rd.buf, start, rd.pos, done);
      var el := rd.Next();
      if el.Err? || el.value.None? { return None; }
      var e := el.value.value;
      if e.value.ContainerEnd? { return Some(exts); }
      ghost var t := ParseTree(rd.buf, rd.pos, e);
      var ext := ParseExtension(rd, e, exts);
      if ext.None? {
        if t.Ok? { BadElement(rd.buf, start, t.value.1, done, t.value.0, [], ExtStep); }
        return None;
      }
      FoldSnoc(done, t.value.0, [], ExtStep);
      done := done + [t.value.0];
      exts := exts + [ext.value];
    }
  }

  /** One field of a certificate whose first element was read. */
  method ParseField(rd: Reader, e: Element, p: Partial) returns (r: Option<Partial>)
    requires rd.Valid() && Writable(e.value) && !e.value.ContainerEnd?
    modifies rd
    ensures rd.Valid()
    ensures var t := ParseTree(rd.buf, old(rd.pos), e);
            if t.Err? then r.None? else r == CertStep(p, t.value.0) && (r.Some? ==> rd.pos == t.value.1)
    ensures r.Some? ==> rd.pos >= old(rd.pos)
  {
    hide Read, Parse, Fold, DnOf, ExtsOf;
    if !e.tag.Context? { return None; }
    var n := e.tag.t;
    if (n == 3 || n == 6) && e.value.ListStart? {
      var dn := ParseDn(rd);
      if dn.None? { return None; }
      return Some(if n == 3 then p.(issuer := dn) else p.(subject := dn));
    } else if n == 10 && e.value.ListStart? {
      var es := ParseExtensions(rd);
      if es.None? { return None; }
      return Some(p.(extensions := es.value));
    } else if IsStart(e.value) {
      return None;
    }
    return CertStep(p, Leaf(e.tag, e.value));
  }

  method ParseCertificate(blob: bytes) returns (r: Option<MatterCert>)
    ensures r == ParseCert(blob)
  {
    hide Read, Parse, Progress, Fold, CertStep, ParseTree, Finished;
    if |blob| > MAX_CERT_TLV_LEN { return None; }
    var rd := new Reader(blob);
    var first := rd.Next();
    if first.Err? || first.value.None? || !first.value.value.value.StructStart? { return None; }
    var p := NoFields();
    ghost var start, done: seq<Tree> := rd.pos, [];
    ProgressStart(blob, start);
    FoldNothing(p, CertStep);
    while true
      invariant rd.Valid() && rd.buf == blob && start <= rd.pos && Progress(blob, start, rd.pos, done)
      invariant Fold(done, NoFields(), CertStep) == Some(p)
      decreases |blob| - rd.pos
    {
      ProgressStep(blob, start, rd.pos, done);
      var el := rd.Next();
      if el.Err? || el.value.None? { return None; }
      var e := el.value.value;
      if e.value.ContainerEnd? { return Finished(p); }
      ghost var t := ParseTree(blob, rd.pos, e);
      var q := ParseField(rd, e, p);
      if q.None? {
        if t.Ok? { BadElement(blob, start, t.value.1, done, t.value.0, NoFields(), CertStep); }
        return None;
      }
      FoldSnoc(done, t.value.0, NoFields(), CertStep);
      done := done + [t.value.0];
      p := q.value;
    }
  }
}
