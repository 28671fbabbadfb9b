/** The TLV records of the group table and the walk that reads their flat fields
    (crates/mat-controller/src/group_settings.rs). */
module Records {
  import opened Wrappers
  import opened LittleEndian
  import opened TlvCodec
  import opened TlvStream
  import opened TlvTrees

  /** The elements of a record: a struct with everything up to its end marker. */
  function Fields(blob: bytes): (r: Option<seq<Tree>>)
    ensures r.Some? ==> ProperAll(r.value)
  {
    match Read(blob, 0)
    case Ok(Some((e, next))) =>
      if !e.value.StructStart? then None
      else (match Parse(blob, next) case Err(_) => None case Ok((ts, _)) => Some(ts))
    case _ => None
  }

  function StructBytes(ts: seq<Tree>): (b: bytes)
    requires ProperAll(ts)
    ensures b != []
  {
    TreeBytes(Branch(Anonymous, StructStart, ts))
  }

  /** A record written by a writer is read back element by element, whatever follows it. */
  lemma FieldsOfStruct(ts: seq<Tree>)
    requires ProperAll(ts)
    ensures Fields(StructBytes(ts)) == Some(ts)
  {
    hide Enc, Read, Parse, At, TreeBytes;
    var blob := StructBytes(ts);
    AtWhole(blob);
    ParseOneTree(blob, 0, Branch(Anonymous, StructStart, ts));
    var (e, next) := Read(blob, 0).value.value;
    ParseTreeOfStruct(blob, next, e, ts);
  }

  lemma ParseTreeOfStruct(blob: bytes, pos: nat, e: Element, ts: seq<Tree>)
    requires pos <= |blob| && e.value.StructStart?
    requires ParseTree(blob, pos, e).Ok? && ParseTree(blob, pos, e).value.0 == Branch(e.tag, StructStart, ts)
    ensures Parse(blob, pos).Ok? && Parse(blob, pos).value.0 == ts
  {
    hide Parse;
  }

  // ---------------------------------------------------------------- flat fields

  datatype Field = Field(tag: uint8, value: Value)

  /** The context-tagged leaves, in order; containers are skipped whole. */
  function CtxLeaves(ts: seq<Tree>): seq<Field> {
    if ts == [] then []
    else (match ts[0] case Leaf(Context(t), v) => [Field(t, v)] case _ => []) + CtxLeaves(ts[1..])
  }

  function FlatFields(blob: bytes): Option<seq<Field>> {
    match Fields(blob) case None => None case Some(ts) => Some(CtxLeaves(ts))
  }

  lemma {:induction false} LeavesConcat(a: seq<Tree>, b: seq<Tree>)
    ensures CtxLeaves(a + b) == CtxLeaves(a) + CtxLeaves(b)
  {
    if a == [] {
      assert a + b == b;
    } else {
      LeavesConcat(a[1..], b);
      assert (a + b)[1..] == a[1..] + b;
    }
  }

  lemma LeavesSnoc(done: seq<Tree>, t: Tree)
    ensures CtxLeaves(done + [t]) ==
            CtxLeaves(done) + (match t case Leaf(Context(tag), v) => [Field(tag, v)] case _ => [])
  {
    LeavesConcat(done, [t]);
    assert [t][1..] == [];
  }

  method WalkFlatStruct(blob: bytes) returns (r: Option<seq<Field>>)
    requires |blob| < 0x8000_0000_0000_0000
    ensures r == FlatFields(blob)
  {
    hide Read, Parse, CtxLeaves, Progress;
    var rd := new Reader(blob);
    var first := rd.Next();
    if first.Err? || first.value.None? || !first.value.value.value.StructStart? { return None; }
    var fields: seq<Field> := [];
    ghost var start, done: seq<Tree> := rd.pos, [];
    ProgressStart(blob, start);
    NoLeaves();
    while true
      invariant rd.Valid() && rd.buf == blob && Progress(blob, start, rd.pos, done)
      invariant fields == CtxLeaves(done)
      decreases |blob| - rd.pos
    {
      ProgressStep(blob, start, rd.pos, done);
      var el := rd.Next();
      if el.Err? || el.value.None? { return None; }
      var e := el.value.value;
      if e.value.ContainerEnd? { return Some(fields); }
      ghost var t := ParseTree(blob, rd.pos, e);
      if IsStart(e.value) {
        var skipped := SkipContainer(rd);
        if skipped.Err? { return None; }
      } else if e.tag.Context? {
        fields := fields + [Field(e.tag.t, e.value)];
      }
      LeavesSnoc(done, t.value.0);
      done := done + [t.value.0];
    }
  }

  lemma NoLeaves()
    ensures CtxLeaves([]) == []
  {
  }

  // ---------------------------------------------------------------- reading single fields

  /** `u16::try_from` of the last unsigned field with this tag. */
  function LastU16(fs: seq<Field>, tag: uint8): Option<uint16> {
    if fs == [] then None
    else
      var f := fs[|fs| - 1];
      if f.tag == tag && f.value.Uint? then (if f.value.u < 0x1_0000 then Some(f.value.u) else None)
      else LastU16(fs[..|fs| - 1], tag)
  }

  /** The last text field with this tag. */
  function LastText(fs: seq<Field>, tag: uint8): Option<bytes> {
    if fs == [] then None
    else
      var f := fs[|fs| - 1];
      if f.tag == tag && f.value.Utf8? then Some(f.value.text) else LastText(fs[..|fs| - 1], tag)
  }

  /** Fields written as leaves. */
  function Plain(fs: seq<Field>): seq<Tree> {
    if fs == [] then [] else [Leaf(Context(fs[0].tag), fs[0].value)] + Plain(fs[1..])
  }

  predicate PlainOk(fs: seq<Field>) {
    forall k :: 0 <= k < |fs| ==>
      Writable(fs[k].value) && !IsStart(fs[k].value) && !fs[k].value.ContainerEnd?
  }

  lemma {:induction false} LeavesOfPlain(fs: seq<Field>)
    requires PlainOk(fs)
    ensures ProperAll(Plain(fs)) && CtxLeaves(Plain(fs)) == fs
  {
    if fs != [] {
      LeavesOfPlain(fs[1..]);
      assert Plain(fs)[1..] == Plain(fs[1..]);
      assert [fs[0]] + fs[1..] == fs;
    }
  }

  /** A record made of plain fields reads back as those fields. */
  lemma FlatFieldsOfPlain(fs: seq<Field>)
    requires PlainOk(fs)
    ensures ProperAll(Plain(fs)) && FlatFields(StructBytes(Plain(fs))) == Some(fs)
  {
    hide Fields, StructBytes, Plain, CtxLeaves;
    LeavesOfPlain(fs);
    FieldsOfStruct(Plain(fs));
  }

  lemma {:induction false} LastU16At(fs: seq<Field>, tag: uint8, k: nat)
    requires k < |fs| && fs[k].tag == tag && fs[k].value.Uint? && fs[k].value.u < 0x1_0000
    requires forall j :: k < j < |fs| ==> fs[j].tag != tag
    ensures LastU16(fs, tag) == Some(fs[k].value.u)
    decreases |fs|
  {
    if k < |fs| - 1 { LastU16At(fs[..|fs| - 1], tag, k); }
  }

  lemma {:induction false} LastTextAt(fs: seq<Field>, tag: uint8, k: nat)
    requires k < |fs| && fs[k].tag == tag && fs[k].value.Utf8?
    requires forall j :: k < j < |fs| ==> fs[j].tag != tag
    ensures LastText(fs, tag) == Some(fs[k].value.text)
    decreases |fs|
  {
    if k < |fs| - 1 { LastTextAt(fs[..|fs| - 1], tag, k); }
  }

  // ---------------------------------------------------------------- records

  /** `f/<idx>/g` */
  datatype FabricData = FabricData(
    firstGroup: uint16, groupCount: uint16, firstMap: uint16, mapCount: uint16,
    firstKeyset: uint16, keysetCount: uint16, next: uint16)

  /** `f/<idx>/g/<gid>`; the name is UTF-8. */
  datatype GroupData = GroupData(name: Name, firstEndpoint: uint16, endpointCount: uint16, next: uint16)

  type Name = b: bytes | ValidUtf8(b) && |b| < USIZE

  /** `f/<idx>/gk/<id>` */
  datatype KeyMap = KeyMap(groupId: uint16, keysetId: uint16, next: uint16)

  /** `g/gfl` */
  datatype FabricList = FabricList(firstEntry: uint16, entryCount: uint16)

  function U(tag: uint8, v: uint16): Field { Field(tag, Uint(v)) }

  /** A record without nested containers, as the writer lays it out. */
  function FlatRecord(fs: seq<Field>): bytes
    requires PlainOk(fs)
  {
    LeavesOfPlain(fs);
    StructBytes(Plain(fs))
  }

  function ParseFabricData(blob: bytes): Option<FabricData> {
    match FlatFields(blob)
    case None => None
    case Some(fs) =>
      var f1, f2, f3 := LastU16(fs, 1), LastU16(fs, 2), LastU16(fs, 3);
      var f4, f5, f6, f7 := LastU16(fs, 4), LastU16(fs, 5), LastU16(fs, 6), LastU16(fs, 7);
      if f1.None? || f2.None? || f3.None? || f4.None? || f5.None? || f6.None? || f7.None? then None
      else Some(FabricData(f1.value, f2.value, f3.value, f4.value, f5.value, f6.value, f7.value))
  }

  function FabricFields(f: FabricData): seq<Field> {
    [U(1, f.firstGroup), U(2, f.groupCount), U(3, f.firstMap), U(4, f.mapCount),
     U(5, f.firstKeyset), U(6, f.keysetCount), U(7, f.next)]
  }

  function SerializeFabric(f: FabricData): (b: bytes)
    ensures b != []
  {
    FlatRecord(FabricFields(f))
  }

  lemma FabricRoundTrip(f: FabricData)
    ensures ParseFabricData(SerializeFabric(f)) == Some(f)
  {
    hide FlatFields, StructBytes, Plain, LastU16, ProperAll;
    var fs := FabricFields(f);
    FlatFieldsOfPlain(fs);
    LastU16At(fs, 1, 0); LastU16At(fs, 2, 1); LastU16At(fs, 3, 2); LastU16At(fs, 4, 3);
    LastU16At(fs, 5, 4); LastU16At(fs, 6, 5); LastU16At(fs, 7, 6);
  }

  function ParseGroupData(blob: bytes): Option<GroupData> {
    match FlatFields(blob)
    case None => None
    case Some(fs) =>
      var name, f2, f3, f4 := LastText(fs, 1), LastU16(fs, 2), LastU16(fs, 3), LastU16(fs, 4);
      if name.None? || f2.None? || f3.None? || f4.None? then None
      else NameFits(blob); Some(GroupData(name.value, f2.value, f3.value, f4.value))
  }

  function GroupFields(g: GroupData): seq<Field> {
    [Field(1, Utf8(g.name)), U(2, g.firstEndpoint), U(3, g.endpointCount), U(4, g.next)]
  }

  function SerializeGroup(g: GroupData): (b: bytes)
    ensures b != []
  {
    FlatRecord(GroupFields(g))
  }

  lemma GroupRoundTrip(g: GroupData)
    ensures ParseGroupData(SerializeGroup(g)) == Some(g)
  {
    hide FlatFields, StructBytes, Plain, LastU16, LastText, ValidUtf8;
    var fs := GroupFields(g);
    FlatFieldsOfPlain(fs);
    LastTextAt(fs, 1, 0); LastU16At(fs, 2, 1); LastU16At(fs, 3, 2); LastU16At(fs, 4, 3);
  }

  function ParseKeyMap(blob: bytes): Option<KeyMap> {
    match FlatFields(blob)
    case None => None
    case Some(fs) =>
      var f1, f2, f3 := LastU16(fs, 1), LastU16(fs, 2), LastU16(fs, 3);
      if f1.None? || f2.None? || f3.None? then None else Some(KeyMap(f1.value, f2.value, f3.value))
  }

  function KeyMapFields(k: KeyMap): seq<Field> {
    [U(1, k.groupId), U(2, k.keysetId), U(3, k.next)]
  }

  function SerializeKeyMap(k: KeyMap): (b: bytes)
    ensures b != []
  {
    FlatRecord(KeyMapFields(k))
  }

  lemma KeyMapRoundTrip(k: KeyMap)
    ensures ParseKeyMap(SerializeKeyMap(k)) == Some(k)
  {
    hide FlatFields, StructBytes, Plain, LastU16;
    var fs := KeyMapFields(k);
    FlatFieldsOfPlain(fs);
    LastU16At(fs, 1, 0); LastU16At(fs, 2, 1); LastU16At(fs, 3, 2);
  }

  function ParseFabricList(blob: bytes): Option<FabricList> {
    match FlatFields(blob)
    case None => None
    case Some(fs) =>
      var f1, f2 := LastU16(fs, 1), LastU16(fs, 2);
      if f1.None? || f2.None? then None else Some(FabricList(f1.value, f2.value))
  }

  function FabricListFields(l: FabricList): seq<Field> {
    [U(1, l.firstEntry), U(2, l.entryCount)]
  }

  function SerializeFabricList(l: FabricList): (b: bytes)
    ensures b != []
  {
    FlatRecord(FabricListFields(l))
  }

  lemma FabricListRoundTrip(l: FabricList)
    ensures ParseFabricList(SerializeFabricList(l)) == Some(l)
  {
    hide FlatFields, StructBytes, Plain, LastU16;
    var fs := FabricListFields(l);
    FlatFieldsOfPlain(fs);
    LastU16At(fs, 1, 0); LastU16At(fs, 2, 1);
  }

  // ---------------------------------------------------------------- names that were read are text

  lemma {:induction false} LeavesAreWritable(ts: seq<Tree>)
    requires ProperAll(ts)
    ensures PlainOk(CtxLeaves(ts))
  {
    if ts != [] {
      assert Proper(ts[0]);
      LeavesAreWritable(ts[1..]);
    }
  }

  lemma {:induction false} LastTextIsText(fs: seq<Field>, tag: uint8)
    requires PlainOk(fs)
    ensures LastText(fs, tag).Some? ==> Writable(Utf8(LastText(fs, tag).value))
    decreases |fs|
  {
    if fs != [] { LastTextIsText(fs[..|fs| - 1], tag); }
  }

  lemma NameFits(blob: bytes)
    requires FlatFields(blob).Some? && LastText(FlatFields(blob).value, 1).Some?
    ensures Writable(Utf8(LastText(FlatFields(blob).value, 1).value))
  {
    hide LastText, CtxLeaves;
    LeavesAreWritable(Fields(blob).value);
    LastTextIsText(FlatFields(blob).value, 1);
  }
}
