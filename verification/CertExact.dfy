/** Exactly which bytes are read as a certificate, and as which one (crates/mat-controller/src/cert.rs), section 6.5 of
    the Matter Core Specification. */
module CertExact {
  import opened Wrappers
  import opened TlvCodec
  import opened TlvTrees
  import opened Records
  import opened TreesExact
  import opened Certificate

  // ---------------------------------------------------------------- the last element under a tag

  function Tagged(n: uint8): Tree -> bool { (t: Tree) => t.tag == Context(n) }

  /** `t` is the last of the elements with the context tag `n`. */
  ghost predicate Latest(ts: seq<Tree>, n: uint8, t: Tree) { LastOf(ts, Tagged(n), t) }

  ghost predicate Has(ts: seq<Tree>, n: uint8) { !NoneOf(ts, Tagged(n)) }

  lemma LatestSnoc(ts: seq<Tree>, x: Tree, n: uint8, t: Tree)
    ensures Latest(ts + [x], n, t) <==> if x.tag == Context(n) then t == x else Latest(ts, n, t)
  {
    LastSnoc(ts, x, Tagged(n), t);
    hide LastOf;
  }

  lemma {:induction false} HasLatest(ts: seq<Tree>, n: uint8)
    ensures Has(ts, n) <==> exists t :: Latest(ts, n, t)
    decreases |ts|
  {
    if ts != [] {
      var front, x := ts[..|ts| - 1], ts[|ts| - 1];
      assert ts == front + [x];
      HasLatest(front, n);
      HasSnoc(front, x, n);
      forall t: Tree
        ensures Latest(ts, n, t) <==> if x.tag == Context(n) then t == x else Latest(front, n, t)
      {
        LatestSnoc(front, x, n, t);
      }
      hide Has;
      if x.tag == Context(n) { assert Latest(ts, n, x); }
      hide Latest;
    }
  }

  lemma HasSnoc(ts: seq<Tree>, x: Tree, n: uint8)
    ensures Has(ts + [x], n) <==> x.tag == Context(n) || Has(ts, n)
  {
    LastSnoc(ts, x, Tagged(n), x);
  }

  // ---------------------------------------------------------------- lists

  /** A step that takes in one element at a time, whatever came before. */
  ghost predicate OneByOne<X(!new)>(step: (seq<X>, Tree) -> Option<seq<X>>, one: Tree -> Option<X>) {
    forall xs: seq<X>, t: Tree :: step(xs, t) == if one(t).None? then None else Some(xs + [one(t).value])
  }

  lemma {:induction false} FoldMaps<X(!new)>(
    ts: seq<Tree>, step: (seq<X>, Tree) -> Option<seq<X>>, one: Tree -> Option<X>, xs: seq<X>)
    requires OneByOne(step, one)
    ensures Fold(ts, [], step) == Some(xs) <==>
              |ts| == |xs| && forall k :: 0 <= k < |ts| ==> one(ts[k]) == Some(xs[k])
    decreases |ts|
  {
    if ts != [] {
      var n := |ts| - 1;
      var f := Fold(ts[..n], [], step);
      if f.Some? {
        FoldMaps(ts[..n], step, one, f.value);
        assert step(f.value, ts[n]) == if one(ts[n]).None? then None else Some(f.value + [one(ts[n]).value]);
      }
      if |xs| == |ts| && forall k :: 0 <= k < |ts| ==> one(ts[k]) == Some(xs[k]) {
        FoldMaps(ts[..n], step, one, xs[..n]);
        assert xs == xs[..n] + [xs[n]];
      }
    }
  }

  function DnOne(t: Tree): Option<DnAttr> {
    match t
    case Leaf(Context(tag), Uint(v)) => Some(DnAttr(tag, MatterId(v)))
    case Leaf(Context(tag), Utf8(s)) => Some(DnAttr(tag, Text(s)))
    case _ => None
  }

  /** A name is read exactly from its attributes. */
  lemma DnIsExact(ts: seq<Tree>, attrs: seq<DnAttr>)
    ensures DnOf(ts) == Some(attrs) <==> ts == DnTrees(attrs)
  {
    assert OneByOne(DnStep, DnOne);
    FoldMaps(ts, DnStep, DnOne, attrs);
    forall k | 0 <= k < |ts| == |attrs|
      ensures DnOne(ts[k]) == Some(attrs[k]) <==> ts[k] == DnTree(attrs[k])
    {
      DnOneIs(ts[k], attrs[k]);
    }
    hide Fold, DnOne, DnTree;
    assert ts == DnTrees(attrs) <==> |ts| == |attrs| && forall k :: 0 <= k < |ts| ==> ts[k] == DnTree(attrs[k]);
  }

  lemma DnOneIs(t: Tree, a: DnAttr)
    ensures DnOne(t) == Some(a) <==> t == DnTree(a)
  {
  }

  function PurposeOne(t: Tree): Option<uint64> {
    match t
    case Leaf(_, Uint(v)) => Some(v)
    case _ => None
  }

  /** Purposes may stand under any tag. */
  ghost predicate ArePurposes(ts: seq<Tree>, ps: seq<uint64>) {
    |ts| == |ps| && forall k :: 0 <= k < |ts| ==> ts[k].Leaf? && ts[k].value == Uint(ps[k])
  }

  lemma PurposesAreExact(ts: seq<Tree>, ps: seq<uint64>)
    ensures PurposesOf(ts) == Some(ps) <==> ArePurposes(ts, ps)
  {
    assert OneByOne(PurposeStep, PurposeOne);
    FoldMaps(ts, PurposeStep, PurposeOne, ps);
  }

  // ---------------------------------------------------------------- basic constraints

  predicate BasicField(t: Tree) {
    || (t.Leaf? && t.tag == Context(1) && t.value.Bool?)
    || (t.Leaf? && t.tag == Context(2) && t.value.Uint? && t.value.u < 0x100)
  }

  /** Nothing but flags and path lengths; the last of each counts, and there must be a flag. */
  ghost predicate AreBasic(ts: seq<Tree>, isCa: bool, pathLen: Option<uint8>) {
    && (forall k :: 0 <= k < |ts| ==> BasicField(ts[k]))
    && Latest(ts, 1, Leaf(Context(1), Bool(isCa)))
    && if pathLen.Some? then Latest(ts, 2, Leaf(Context(2), Uint(pathLen.value))) else !Has(ts, 2)
  }

  /** What was found so far is the last of each. */
  ghost predicate BasicHeld(ts: seq<Tree>, b: Basic) {
    && (forall v: bool :: b.isCa == Some(v) <==> Latest(ts, 1, Leaf(Context(1), Bool(v))))
    && (forall v: uint8 :: b.pathLen == Some(v) <==> Latest(ts, 2, Leaf(Context(2), Uint(v))))
    && (b.pathLen.None? <==> !Has(ts, 2))
  }

  lemma BasicStepIs(b: Basic, x: Tree)
    ensures BasicStep(b, x).Some? <==> BasicField(x)
    ensures BasicField(x) && x.tag == Context(1) ==> BasicStep(b, x) == Some(b.(isCa := Some(x.value.b)))
    ensures BasicField(x) && x.tag == Context(2) ==> BasicStep(b, x) == Some(b.(pathLen := Some(x.value.u)))
  {
  }

  lemma BasicHeldSnoc(ts: seq<Tree>, x: Tree, b: Basic)
    requires BasicHeld(ts, b) && BasicField(x)
    ensures BasicHeld(ts + [x], BasicStep(b, x).value)
  {
    BasicStepIs(b, x);
    HasSnoc(ts, x, 2);
    var b1 := BasicStep(b, x).value;
    forall v: bool
      ensures b1.isCa == Some(v) <==> Latest(ts + [x], 1, Leaf(Context(1), Bool(v)))
    {
      LatestSnoc(ts, x, 1, Leaf(Context(1), Bool(v)));
    }
    forall v: uint8
      ensures b1.pathLen == Some(v) <==> Latest(ts + [x], 2, Leaf(Context(2), Uint(v)))
    {
      LatestSnoc(ts, x, 2, Leaf(Context(2), Uint(v)));
    }
    hide Latest, Has, BasicStep;
  }

  lemma {:induction false} BasicFold(ts: seq<Tree>)
    ensures Fold(ts, Basic(None, None), BasicStep).Some? <==> forall k :: 0 <= k < |ts| ==> BasicField(ts[k])
    ensures Fold(ts, Basic(None, None), BasicStep).Some? ==> BasicHeld(ts, Fold(ts, Basic(None, None), BasicStep).value)
    decreases |ts|
  {
    hide BasicField, BasicStep;
    if ts != [] {
      hide BasicHeld;
      var n := |ts| - 1;
      BasicFold(ts[..n]);
      assert ts == ts[..n] + [ts[n]];
      var f := Fold(ts[..n], Basic(None, None), BasicStep);
      if f.Some? {
        BasicStepIs(f.value, ts[n]);
        if BasicField(ts[n]) { BasicHeldSnoc(ts[..n], ts[n], f.value); }
      }
    }
  }

  lemma BasicIsExact(ts: seq<Tree>, isCa: bool, pathLen: Option<uint8>)
    ensures BasicOf(ts) == Some(BasicConstraints(isCa, pathLen)) <==> AreBasic(ts, isCa, pathLen)
    ensures BasicOf(ts).Some? ==> BasicOf(ts).value.BasicConstraints?
  {
    BasicFold(ts);
    hide Fold, Latest, Has, BasicField;
    if pathLen.Some? { assert pathLen == Some(pathLen.value); }
  }

  // ---------------------------------------------------------------- extensions

  /** The element stands for the extension. */
  ghost predicate StandsFor(t: Tree, e: CertExtension) {
    match e
    case BasicConstraints(isCa, pathLen) =>
      t.Branch? && t.tag == Context(1) && t.start == StructStart && AreBasic(t.kids, isCa, pathLen)
    case KeyUsage(bits) => t == Leaf(Context(2), Uint(bits))
    case ExtendedKeyUsage(ps) => t.Branch? && t.tag == Context(3) && t.start == ArrayStart && ArePurposes(t.kids, ps)
    case SubjectKeyId(id) => t == Leaf(Context(4), Bytes(id))
    case AuthorityKeyId(id) => t == Leaf(Context(5), Bytes(id))
  }

  ghost predicate AreExts(ts: seq<Tree>, es: seq<CertExtension>) {
    |ts| == |es| && forall k :: 0 <= k < |ts| ==> StandsFor(ts[k], es[k])
  }

  function ExtOne(t: Tree): Option<CertExtension> {
    match t
    case Branch(Context(1), StructStart, kids) => BasicOf(kids)
    case Leaf(Context(2), Uint(v)) => if v < 0x1_0000 then Some(KeyUsage(v)) else None
    case Branch(Context(3), ArrayStart, kids) =>
      (match PurposesOf(kids) case None => None case Some(ps) => Some(ExtendedKeyUsage(ps)))
    case Leaf(Context(4), Bytes(b)) => Some(SubjectKeyId(b))
    case Leaf(Context(5), Bytes(b)) => Some(AuthorityKeyId(b))
    case _ => None
  }

  lemma ExtOneIs(t: Tree, e: CertExtension)
    ensures ExtOne(t) == Some(e) <==> StandsFor(t, e)
  {
    hide BasicOf, PurposesOf, AreBasic, ArePurposes;
    if t.Branch? && t.tag == Context(1) && t.start == StructStart {
      if e.BasicConstraints? {
        BasicIsExact(t.kids, e.isCa, e.pathLen);
      } else {
        BasicIsExact(t.kids, true, None);
      }
    }
    if t.Branch? && t.tag == Context(3) && e.ExtendedKeyUsage? { PurposesAreExact(t.kids, e.purposes); }
  }

  lemma ExtsAreExact(ts: seq<Tree>, es: seq<CertExtension>)
    ensures ExtsOf(ts) == Some(es) <==> AreExts(ts, es)
  {
    assert OneByOne(ExtStep, ExtOne) by { hide BasicOf, PurposesOf; }
    FoldMaps(ts, ExtStep, ExtOne, es);
    forall k | 0 <= k < |ts| == |es|
      ensures ExtOne(ts[k]) == Some(es[k]) <==> StandsFor(ts[k], es[k])
    {
      ExtOneIs(ts[k], es[k]);
    }
    hide Fold, ExtOne, StandsFor;
  }

  // ---------------------------------------------------------------- the fields of a certificate

  /** One of the eleven fields, well formed. */
  ghost predicate CertField(t: Tree) {
    || (exists b: bytes :: t == Leaf(Context(1), Bytes(b)))
    || t == Leaf(Context(2), Uint(1)) || t == Leaf(Context(7), Uint(1)) || t == Leaf(Context(8), Uint(1))
    || (exists dn: seq<DnAttr> :: t == DnList(3, dn) || t == DnList(6, dn))
    || (exists v: uint32 :: t == Leaf(Context(4), Uint(v)) || t == Leaf(Context(5), Uint(v)))
    || (exists b: bytes :: |b| == 65 && t == Leaf(Context(9), Bytes(b)))
    || (t.Branch? && t.tag == Context(10) && t.start == ListStart && exists es: seq<CertExtension> :: AreExts(t.kids, es))
    || (exists b: bytes :: |b| == 64 && t == Leaf(Context(11), Bytes(b)))
  }

  /** The extensions are those of the last field 10, none without one. */
  ghost predicate ExtsHeld(ts: seq<Tree>, es: seq<CertExtension>) {
    if !Has(ts, 10) then es == []
    else exists kids: seq<Tree> :: Latest(ts, 10, Branch(Context(10), ListStart, kids)) && AreExts(kids, es)
  }

  /** The fields of the certificate `c`: nothing but well-formed ones, the last of each counts, and all but the
      extensions must be there. */
  ghost predicate IsCert(ts: seq<Tree>, c: MatterCert) {
    && (forall k :: 0 <= k < |ts| ==> CertField(ts[k]))
    && Latest(ts, 1, Leaf(Context(1), Bytes(c.serial))) && Has(ts, 2) && Latest(ts, 3, DnList(3, c.issuer))
    && Latest(ts, 4, Leaf(Context(4), Uint(c.notBefore))) && Latest(ts, 5, Leaf(Context(5), Uint(c.notAfter)))
    && Latest(ts, 6, DnList(6, c.subject)) && Has(ts, 7) && Has(ts, 8)
    && Latest(ts, 9, Leaf(Context(9), Bytes(c.pubKey))) && ExtsHeld(ts, c.extensions)
    && Latest(ts, 11, Leaf(Context(11), Bytes(c.signature)))
  }

  /** The field under a tag that was found last. */
  function Seen(p: Partial, n: uint8): Option<Tree> {
    match n
    case 1 => if p.serial.Some? then Some(Leaf(Context(1), Bytes(p.serial.value))) else None
    case 2 => if p.sigAlgo then Some(Leaf(Context(2), Uint(1))) else None
    case 3 => if p.issuer.Some? then Some(DnList(3, p.issuer.value)) else None
    case 4 => if p.notBefore.Some? then Some(Leaf(Context(4), Uint(p.notBefore.value))) else None
    case 5 => if p.notAfter.Some? then Some(Leaf(Context(5), Uint(p.notAfter.value))) else None
    case 6 => if p.subject.Some? then Some(DnList(6, p.subject.value)) else None
    case 7 => if p.keyAlgo then Some(Leaf(Context(7), Uint(1))) else None
    case 8 => if p.curve then Some(Leaf(Context(8), Uint(1))) else None
    case 9 => if p.pubKey.Some? then Some(Leaf(Context(9), Bytes(p.pubKey.value))) else None
    case 11 => if p.signature.Some? then Some(Leaf(Context(11), Bytes(p.signature.value))) else None
    case _ => None
  }

  /** What was found so far is the last of each. */
  ghost predicate Held(ts: seq<Tree>, p: Partial) {
    && (forall n: uint8, t: Tree :: n != 10 ==> (Seen(p, n) == Some(t) <==> Latest(ts, n, t)))
    && ExtsHeld(ts, p.extensions)
  }

  /** A step takes in exactly the well-formed fields. */
  lemma StepIs(p: Partial, t: Tree)
    ensures CertStep(p, t).Some? <==> CertField(t)
  {
    if t.Branch? { BranchIs(p, t); } else { LeafIs(p, t); }
  }

  lemma LeafIs(p: Partial, t: Tree)
    requires t.Leaf?
    ensures CertStep(p, t).Some? <==> CertField(t)
  {
    hide AreExts, DnTrees;
  }

  lemma BranchIs(p: Partial, t: Tree)
    requires t.Branch?
    ensures CertStep(p, t).Some? <==> CertField(t)
  {
    BranchLists(t);
    hide DnOf, ExtsOf, AreExts, DnTrees;
    if t.start == ListStart && DnOf(t.kids).Some? {
      var dn := DnOf(t.kids).value;
      assert t.tag == Context(3) ==> t == DnList(3, dn);
      assert t.tag == Context(6) ==> t == DnList(6, dn);
    }
    if ExtsOf(t.kids).Some? { assert AreExts(t.kids, ExtsOf(t.kids).value); }
  }

  lemma BranchLists(t: Tree)
    requires t.Branch?
    ensures forall ctx: uint8, dn: seq<DnAttr> ::
              t == DnList(ctx, dn) <==> t.tag == Context(ctx) && t.start == ListStart && DnOf(t.kids) == Some(dn)
    ensures forall es: seq<CertExtension> :: ExtsOf(t.kids) == Some(es) <==> AreExts(t.kids, es)
  {
    forall ctx: uint8, dn: seq<DnAttr>
      ensures t == DnList(ctx, dn) <==> t.tag == Context(ctx) && t.start == ListStart && DnOf(t.kids) == Some(dn)
    {
      DnIsExact(t.kids, dn);
    }
    forall es: seq<CertExtension>
      ensures ExtsOf(t.kids) == Some(es) <==> AreExts(t.kids, es)
    {
      ExtsAreExact(t.kids, es);
    }
  }

  lemma StepSees(p: Partial, t: Tree)
    requires CertStep(p, t).Some?
    ensures t.tag.Context? && 1 <= t.tag.t <= 11
    ensures var q := CertStep(p, t).value;
            && (forall n: uint8 :: n != t.tag.t ==> Seen(q, n) == Seen(p, n))
            && if t.tag.t == 10 then t.Branch? && t.start == ListStart && AreExts(t.kids, q.extensions)
               else Seen(q, t.tag.t) == Some(t) && q.extensions == p.extensions
  {
    if t.Branch? { BranchSees(p, t); } else { LeafSees(p, t); }
    hide CertStep, Seen, AreExts;
  }

  /** The field is seen afterwards, and all others as before. */
  ghost predicate Sees(p: Partial, q: Partial, t: Tree) {
    && t.tag.Context? && 1 <= t.tag.t <= 11 && (forall n: uint8 :: n != t.tag.t ==> Seen(q, n) == Seen(p, n))
    && if t.tag.t == 10 then t.Branch? && t.start == ListStart && AreExts(t.kids, q.extensions)
       else Seen(q, t.tag.t) == Some(t) && q.extensions == p.extensions
  }

  /** Only the field under the tag `m` may differ. */
  predicate OnlyField(p: Partial, q: Partial, m: uint8) {
    && (m != 1 ==> q.serial == p.serial) && (m != 2 ==> q.sigAlgo == p.sigAlgo) && (m != 3 ==> q.issuer == p.issuer)
    && (m != 4 ==> q.notBefore == p.notBefore) && (m != 5 ==> q.notAfter == p.notAfter)
    && (m != 6 ==> q.subject == p.subject) && (m != 7 ==> q.keyAlgo == p.keyAlgo) && (m != 8 ==> q.curve == p.curve)
    && (m != 9 ==> q.pubKey == p.pubKey) && (m != 10 ==> q.extensions == p.extensions)
    && (m != 11 ==> q.signature == p.signature)
  }

  lemma StepOnly(p: Partial, t: Tree)
    requires CertStep(p, t).Some?
    ensures t.tag.Context? && OnlyField(p, CertStep(p, t).value, t.tag.t)
  {
    TagIsContext(p, t);
    hide CertStep, OnlyField;
    if t.Branch? { BranchOnly(p, t); } else if t.tag.t <= 4 { LowLeafOnly(p, t); } else { HighLeafOnly(p, t); }
  }

  lemma TagIsContext(p: Partial, t: Tree)
    requires CertStep(p, t).Some?
    ensures t.tag.Context?
  {
    hide DnOf, ExtsOf;
  }

  lemma BranchOnly(p: Partial, t: Tree)
    requires CertStep(p, t).Some? && t.tag.Context? && t.Branch?
    ensures OnlyField(p, CertStep(p, t).value, t.tag.t)
  {
    hide DnOf, ExtsOf;
  }

  lemma LowLeafOnly(p: Partial, t: Tree)
    requires CertStep(p, t).Some? && t.tag.Context? && t.Leaf? && t.tag.t <= 4
    ensures OnlyField(p, CertStep(p, t).value, t.tag.t)
  {
    hide DnOf, ExtsOf;
  }

  lemma HighLeafOnly(p: Partial, t: Tree)
    requires CertStep(p, t).Some? && t.tag.Context? && t.Leaf? && t.tag.t > 4
    ensures OnlyField(p, CertStep(p, t).value, t.tag.t)
  {
    hide DnOf, ExtsOf;
  }

  lemma SeenOnly(p: Partial, q: Partial, m: uint8, n: uint8)
    requires OnlyField(p, q, m) && n != m
    ensures Seen(q, n) == Seen(p, n)
  {
    hide DnList;
  }

  lemma OtherSeen(p: Partial, t: Tree, n: uint8)
    requires CertStep(p, t).Some? && t.tag != Context(n)
    ensures Seen(CertStep(p, t).value, n) == Seen(p, n)
  {
    StepOnly(p, t);
    hide CertStep, OnlyField, Seen;
    SeenOnly(p, CertStep(p, t).value, t.tag.t, n);
  }

  lemma ThisSeen(p: Partial, t: Tree)
    requires CertStep(p, t).Some?
    ensures t.tag.Context? && 1 <= t.tag.t <= 11
    ensures t.Leaf? ==> Seen(CertStep(p, t).value, t.tag.t) == Some(t)
    ensures t.tag.t != 10 ==> CertStep(p, t).value.extensions == p.extensions
    ensures t.tag.t == 10 ==> t.Branch? && t.start == ListStart && ExtsOf(t.kids) == Some(CertStep(p, t).value.extensions)
  {
    hide DnOf, ExtsOf, DnTrees;
  }

  lemma LeafSees(p: Partial, t: Tree)
    requires t.Leaf? && CertStep(p, t).Some?
    ensures Sees(p, CertStep(p, t).value, t)
  {
    ThisSeen(p, t);
    hide CertStep, Seen, AreExts, ExtsOf;
    forall n: uint8 | n != t.tag.t
      ensures Seen(CertStep(p, t).value, n) == Seen(p, n)
    {
      OtherSeen(p, t, n);
    }
  }

  lemma NameSeen(p: Partial, t: Tree)
    requires t.Branch? && CertStep(p, t).Some? && t.tag != Context(10)
    ensures t.tag.Context? && Seen(CertStep(p, t).value, t.tag.t) == Some(t)
  {
    BranchLists(t);
    hide DnOf, ExtsOf, AreExts, DnTrees;
  }

  lemma BranchSees(p: Partial, t: Tree)
    requires t.Branch? && CertStep(p, t).Some?
    ensures Sees(p, CertStep(p, t).value, t)
  {
    ThisSeen(p, t);
    if t.tag != Context(10) { NameSeen(p, t); }
    ExtsAreExact(t.kids, CertStep(p, t).value.extensions);
    hide CertStep, Seen, AreExts, ExtsOf;
    forall n: uint8 | n != t.tag.t
      ensures Seen(CertStep(p, t).value, n) == Seen(p, n)
    {
      OtherSeen(p, t, n);
    }
  }

  lemma HeldSnoc(ts: seq<Tree>, x: Tree, p: Partial)
    requires Held(ts, p) && CertStep(p, x).Some?
    ensures Held(ts + [x], CertStep(p, x).value)
  {
    var q := CertStep(p, x).value;
    StepSees(p, x);
    hide CertStep, Seen;
    forall n: uint8, t: Tree | n != 10
      ensures Seen(q, n) == Some(t) <==> Latest(ts + [x], n, t)
    {
      LatestSnoc(ts, x, n, t);
    }
    ExtsSnoc(ts, x, p.extensions, q.extensions);
    hide ExtsHeld, Latest;
  }

  lemma ExtsSnoc(ts: seq<Tree>, x: Tree, es: seq<CertExtension>, es': seq<CertExtension>)
    requires ExtsHeld(ts, es)
    requires if x.tag == Context(10) then x.Branch? && x.start == ListStart && AreExts(x.kids, es') else es' == es
    ensures ExtsHeld(ts + [x], es')
  {
    HasSnoc(ts, x, 10);
    forall t: Tree
      ensures Latest(ts + [x], 10, t) <==> if x.tag == Context(10) then t == x else Latest(ts, 10, t)
    {
      LatestSnoc(ts, x, 10, t);
    }
    hide Has, Latest, AreExts;
    if x.tag == Context(10) { assert x == Branch(Context(10), ListStart, x.kids); }
  }

  lemma NothingHeld()
    ensures Held([], NoFields())
  {
  }

  lemma {:induction false} CertFold(ts: seq<Tree>)
    ensures Fold(ts, NoFields(), CertStep).Some? <==> forall k :: 0 <= k < |ts| ==> CertField(ts[k])
    ensures Fold(ts, NoFields(), CertStep).Some? ==> Held(ts, Fold(ts, NoFields(), CertStep).value)
    decreases |ts|
  {
    hide Held, CertField, CertStep;
    NothingHeld();
    if ts != [] {
      var n := |ts| - 1;
      CertFold(ts[..n]);
      assert ts == ts[..n] + [ts[n]];
      var f := Fold(ts[..n], NoFields(), CertStep);
      if f.Some? {
        StepIs(f.value, ts[n]);
        if CertField(ts[n]) { HeldSnoc(ts[..n], ts[n], f.value); }
      }
    }
  }

  lemma {:induction false} OneExts(ts: seq<Tree>, es: seq<CertExtension>, fs: seq<CertExtension>)
    requires ExtsHeld(ts, es) && ExtsHeld(ts, fs)
    ensures es == fs
  {
    if Has(ts, 10) {
      var a: seq<Tree> :| Latest(ts, 10, Branch(Context(10), ListStart, a)) && AreExts(a, es);
      var b: seq<Tree> :| Latest(ts, 10, Branch(Context(10), ListStart, b)) && AreExts(b, fs);
      OneLast(ts, Tagged(10), Branch(Context(10), ListStart, a), Branch(Context(10), ListStart, b));
      ExtsAreExact(a, es);
      ExtsAreExact(a, fs);
    }
  }

  lemma HeldHas(ts: seq<Tree>, p: Partial, n: uint8)
    requires Held(ts, p) && n != 10
    ensures Has(ts, n) <==> Seen(p, n).Some?
  {
    HasLatest(ts, n);
    hide Has, Latest, Seen;
    if Seen(p, n).Some? { assert Seen(p, n) == Some(Seen(p, n).value); }
  }

  lemma SeenIs(ts: seq<Tree>, p: Partial, n: uint8, t: Tree)
    requires Held(ts, p) && n != 10
    ensures Seen(p, n) == Some(t) <==> Latest(ts, n, t)
  {
    hide Seen, Latest, ExtsHeld;
  }

  lemma FinishedIsCert(ts: seq<Tree>, p: Partial, c: MatterCert)
    requires Held(ts, p) && forall k :: 0 <= k < |ts| ==> CertField(ts[k])
    ensures Finished(p) == Some(c) <==> IsCert(ts, c)
  {
    hide Held, Has, Latest, ExtsHeld, CertField, DnList;
    HeldHas(ts, p, 2);
    HeldHas(ts, p, 7);
    HeldHas(ts, p, 8);
    SeenIs(ts, p, 1, Leaf(Context(1), Bytes(c.serial)));
    SeenIs(ts, p, 3, DnList(3, c.issuer));
    SeenIs(ts, p, 4, Leaf(Context(4), Uint(c.notBefore)));
    SeenIs(ts, p, 5, Leaf(Context(5), Uint(c.notAfter)));
    SeenIs(ts, p, 6, DnList(6, c.subject));
    SeenIs(ts, p, 9, Leaf(Context(9), Bytes(c.pubKey)));
    SeenIs(ts, p, 11, Leaf(Context(11), Bytes(c.signature)));
    HeldExts(ts, p);
    if ExtsHeld(ts, c.extensions) { OneExts(ts, p.extensions, c.extensions); }
    SameName(p.issuer, c.issuer, 3);
    SameName(p.subject, c.subject, 6);
  }

  lemma HeldExts(ts: seq<Tree>, p: Partial)
    requires Held(ts, p)
    ensures ExtsHeld(ts, p.extensions)
  {
    hide Seen, Latest, ExtsHeld;
  }

  /** Bytes are read as a certificate exactly if there are at most 1024 of them and they are a struct of its fields. */
  lemma CertIsExact(blob: bytes, c: MatterCert)
    ensures ParseCert(blob) == Some(c) <==> |blob| <= 1024 && Fields(blob).Some? && IsCert(Fields(blob).value, c)
  {
    if Fields(blob).Some? {
      var ts := Fields(blob).value;
      CertFold(ts);
      if Fold(ts, NoFields(), CertStep).Some? { FinishedIsCert(ts, Fold(ts, NoFields(), CertStep).value, c); }
      hide Fold, Held, Finished, Fields, CertField;
      if IsCert(ts, c) { IsCertFields(ts, c); }
      hide IsCert;
    }
  }

  lemma IsCertFields(ts: seq<Tree>, c: MatterCert)
    requires IsCert(ts, c)
    ensures forall k :: 0 <= k < |ts| ==> CertField(ts[k])
  {
    hide CertField, Has, Latest, ExtsHeld;
  }

  /** A field holds one name. */
  lemma SameName(a: Option<seq<DnAttr>>, dn: seq<DnAttr>, ctx: uint8)
    ensures a.Some? ==> (DnList(ctx, a.value) == DnList(ctx, dn) <==> a.value == dn)
  {
    if a.Some? {
      DnRoundTrip(a.value);
      DnRoundTrip(dn);
    }
  }
}
