/** The key-value store behind the group table, seen as tables of records
    (crates/mat-controller/src/group_settings.rs, crates/mat-controller/src/kvs.rs). */
module GroupStore {
  import opened Wrappers
  import opened TlvCodec
  import opened TlvTrees
  import opened Records
  import opened KeysetRecord
  import opened Chains

  datatype EpochSlot = Current | Pending | Previous

  /** Store keys; `KeyNames` gives their string form. */
  datatype Key =
    | ListKey
    | FabricKey(index: uint16)
    | GroupKey(fab: uint8, gid: uint16)
    | MapKey(fab: uint8, id: uint16)
    | KeysetKey(fab: uint8, ksid: uint16)
    | EpochKey(fab: uint8, slot: EpochSlot)

  /** A stored value, or one that does not decode. Empty values count as absent. */
  datatype Cell = Data(blob: bytes) | BadBase64

  type Store = map<Key, Cell>

  function Blob(m: Store, k: Key): Option<bytes> {
    if k in m && m[k].Data? then Some(m[k].blob) else None
  }

  /** The value of a key, `None` when there is none; the error `bad` for a value that does not decode. */
  function ReadCell<E>(m: Store, k: Key, bad: E): Result<Option<bytes>, E> {
    if k !in m then Ok(None) else if m[k].BadBase64? then Err(bad) else Ok(Some(m[k].blob))
  }

  // ---------------------------------------------------------------- edits

  /** What a command writes to the store. */
  datatype Edit = Put(key: Key, blob: bytes) | Erase(key: Key)

  function ApplyOne(m: Store, e: Edit): Store {
    match e
    case Put(k, b) => m[k := Data(b)]
    case Erase(k) => m - {k}
  }

  function Applied(m: Store, edits: seq<Edit>): Store {
    if edits == [] then m else ApplyOne(Applied(m, edits[..|edits| - 1]), edits[|edits| - 1])
  }

  /** No value written is empty: an empty one would read as absent. */
  predicate Storable(edits: seq<Edit>) { forall k :: 0 <= k < |edits| && edits[k].Put? ==> edits[k].blob != [] }

  lemma AppliedSnoc(m: Store, edits: seq<Edit>, e: Edit)
    ensures Applied(m, edits + [e]) == ApplyOne(Applied(m, edits), e)
    ensures Storable(edits) && (e.Put? ==> e.blob != []) ==> Storable(edits + [e])
  {
    assert (edits + [e])[..|edits|] == edits;
  }

  // ---------------------------------------------------------------- tables

  datatype GroupInfo = GroupInfo(name: Name, firstEndpoint: uint16, endpointCount: uint16)

  datatype Binding = Binding(groupId: uint16, keysetId: uint16)

  /** A keyset record up to its link: its elements with the link set to 0. */
  type Keyset = seq<Tree>

  /** A fabric record up to its link. */
  datatype FabricCore = FabricCore(
    firstGroup: uint16, groupCount: uint16, firstMap: uint16, mapCount: uint16,
    firstKeyset: uint16, keysetCount: uint16)

  function AsGroup(g: GroupData): Node<GroupInfo> {
    Node(GroupInfo(g.name, g.firstEndpoint, g.endpointCount), g.next)
  }

  function FromGroup(n: Node<GroupInfo>): GroupData {
    GroupData(n.val.name, n.val.firstEndpoint, n.val.endpointCount, n.next)
  }

  function AsMap(k: KeyMap): Node<Binding> { Node(Binding(k.groupId, k.keysetId), k.next) }

  function FromMap(n: Node<Binding>): KeyMap { KeyMap(n.val.groupId, n.val.keysetId, n.next) }

  function AsFabric(f: FabricData): Node<FabricCore> {
    Node(FabricCore(f.firstGroup, f.groupCount, f.firstMap, f.mapCount, f.firstKeyset, f.keysetCount), f.next)
  }

  function GroupAt(m: Store, i: uint8, g: uint16): Option<Node<GroupInfo>> {
    match Blob(m, GroupKey(i, g))
    case None => None
    case Some(b) => (match ParseGroupData(b) case None => None case Some(gd) => Some(AsGroup(gd)))
  }

  function MapAt(m: Store, i: uint8, id: uint16): Option<Node<Binding>> {
    match Blob(m, MapKey(i, id))
    case None => None
    case Some(b) => (match ParseKeyMap(b) case None => None case Some(km) => Some(AsMap(km)))
  }

  function AsKeyset(blob: bytes): Option<Node<Keyset>> {
    match KeysetNext(blob)
    case None => None
    case Some(n) => Some(Node(SetNext(Fields(blob).value, 0), n))
  }

  function KeysetAt(m: Store, i: uint8, k: uint16): Option<Node<Keyset>> {
    match Blob(m, KeysetKey(i, k)) case None => None case Some(b) => AsKeyset(b)
  }

  function FabricAt(m: Store, x: uint16): Option<Node<FabricCore>> {
    match Blob(m, FabricKey(x))
    case None => None
    case Some(b) => (match ParseFabricData(b) case None => None case Some(f) => Some(AsFabric(f)))
  }

  function GroupTab(m: Store, i: uint8): Table<GroupInfo> {
    map g: uint16 | GroupAt(m, i, g).Some? :: GroupAt(m, i, g).value
  }

  function MapTab(m: Store, i: uint8): Table<Binding> {
    map g: uint16 | MapAt(m, i, g).Some? :: MapAt(m, i, g).value
  }

  function KeysetTab(m: Store, i: uint8): Table<Keyset> {
    map g: uint16 | KeysetAt(m, i, g).Some? :: KeysetAt(m, i, g).value
  }

  function FabricTab(m: Store): Table<FabricCore> {
    map g: uint16 | FabricAt(m, g).Some? :: FabricAt(m, g).value
  }

  // ---------------------------------------------------------------- what one write does to the tables

  /** The keys of one kind hold the same values in both stores. */
  ghost predicate SameGroups(m: Store, m': Store, i: uint8) {
    forall g: uint16 :: Blob(m', GroupKey(i, g)) == Blob(m, GroupKey(i, g))
  }

  ghost predicate SameMaps(m: Store, m': Store, i: uint8) {
    forall g: uint16 :: Blob(m', MapKey(i, g)) == Blob(m, MapKey(i, g))
  }

  ghost predicate SameKeysets(m: Store, m': Store, i: uint8) {
    forall g: uint16 :: Blob(m', KeysetKey(i, g)) == Blob(m, KeysetKey(i, g))
  }

  ghost predicate SameFabrics(m: Store, m': Store) {
    forall g: uint16 :: Blob(m', FabricKey(g)) == Blob(m, FabricKey(g))
  }

  lemma GroupsFrame(m: Store, m': Store, i: uint8)
    requires SameGroups(m, m', i)
    ensures GroupTab(m', i) == GroupTab(m, i)
  {
    hide ParseGroupData, Blob;
    forall g: uint16
      ensures GroupAt(m', i, g) == GroupAt(m, i, g)
    {
      assert Blob(m', GroupKey(i, g)) == Blob(m, GroupKey(i, g));
    }
  }

  lemma MapsFrame(m: Store, m': Store, i: uint8)
    requires SameMaps(m, m', i)
    ensures MapTab(m', i) == MapTab(m, i)
  {
    hide ParseKeyMap, Blob;
    forall g: uint16
      ensures MapAt(m', i, g) == MapAt(m, i, g)
    {
      assert Blob(m', MapKey(i, g)) == Blob(m, MapKey(i, g));
    }
  }

  lemma KeysetsFrame(m: Store, m': Store, i: uint8)
    requires SameKeysets(m, m', i)
    ensures KeysetTab(m', i) == KeysetTab(m, i)
  {
    hide AsKeyset, Blob;
    forall g: uint16
      ensures KeysetAt(m', i, g) == KeysetAt(m, i, g)
    {
      assert Blob(m', KeysetKey(i, g)) == Blob(m, KeysetKey(i, g));
    }
  }

  lemma FabricsFrame(m: Store, m': Store)
    requires SameFabrics(m, m')
    ensures FabricTab(m') == FabricTab(m)
  {
    hide ParseFabricData, Blob;
    forall g: uint16
      ensures FabricAt(m', g) == FabricAt(m, g)
    {
      assert Blob(m', FabricKey(g)) == Blob(m, FabricKey(g));
    }
  }

  /** A write or removal of key `k` leaves the tables of the other kinds alone. */
  ghost predicate Elsewhere(m: Store, m': Store, i: uint8, k: Key) {
    && (!k.GroupKey? ==> GroupTab(m', i) == GroupTab(m, i))
    && (!k.MapKey? ==> MapTab(m', i) == MapTab(m, i))
    && (!k.KeysetKey? ==> KeysetTab(m', i) == KeysetTab(m, i))
    && (!k.FabricKey? ==> FabricTab(m') == FabricTab(m))
  }

  lemma OtherTables(m: Store, m': Store, i: uint8, k: Key)
    requires forall x :: x != k ==> Blob(m', x) == Blob(m, x)
    ensures Elsewhere(m, m', i, k)
  {
    hide Blob, GroupTab, MapTab, KeysetTab, FabricTab;
    if !k.GroupKey? { GroupsFrame(m, m', i); }
    if !k.MapKey? { MapsFrame(m, m', i); }
    if !k.KeysetKey? { KeysetsFrame(m, m', i); }
    if !k.FabricKey? { FabricsFrame(m, m'); }
  }

  /** Records other than `g` are the same in the new table. */
  ghost predicate Kept<T>(tab: Table<T>, tab': Table<T>, g: uint16) {
    forall x :: x in tab && x != g ==> x in tab' && tab'[x] == tab[x]
  }

  lemma GroupWrite(m: Store, i: uint8, g: uint16, n: Node<GroupInfo>)
    ensures var m' := m[GroupKey(i, g) := Data(SerializeGroup(FromGroup(n)))];
            Kept(GroupTab(m, i), GroupTab(m', i), g) && g in GroupTab(m', i) && GroupTab(m', i)[g] == n
            && Elsewhere(m, m', i, GroupKey(i, g))
  {
    hide ParseGroupData, SerializeGroup;
    GroupRoundTrip(FromGroup(n));
    var m' := m[GroupKey(i, g) := Data(SerializeGroup(FromGroup(n)))];
    GroupOthers(m, m', i, g);
    hide Elsewhere;
  }

  lemma GroupErase(m: Store, i: uint8, g: uint16)
    ensures var m' := m - {GroupKey(i, g)};
            Kept(GroupTab(m, i), GroupTab(m', i), g) && Elsewhere(m, m', i, GroupKey(i, g))
  {
    GroupOthers(m, m - {GroupKey(i, g)}, i, g);
  }

  lemma GroupOthers(m: Store, m': Store, i: uint8, g: uint16)
    requires forall x :: x != GroupKey(i, g) ==> Blob(m', x) == Blob(m, x)
    ensures Kept(GroupTab(m, i), GroupTab(m', i), g) && Elsewhere(m, m', i, GroupKey(i, g))
  {
    OtherTables(m, m', i, GroupKey(i, g));
    hide ParseGroupData, Blob, Elsewhere;
    forall x: uint16 | x != g
      ensures GroupAt(m', i, x) == GroupAt(m, i, x)
    {
      assert Blob(m', GroupKey(i, x)) == Blob(m, GroupKey(i, x));
    }
  }

  lemma MapWrite(m: Store, i: uint8, g: uint16, n: Node<Binding>)
    ensures var m' := m[MapKey(i, g) := Data(SerializeKeyMap(FromMap(n)))];
            Kept(MapTab(m, i), MapTab(m', i), g) && g in MapTab(m', i) && MapTab(m', i)[g] == n
            && Elsewhere(m, m', i, MapKey(i, g))
  {
    hide ParseKeyMap, SerializeKeyMap;
    KeyMapRoundTrip(FromMap(n));
    var m' := m[MapKey(i, g) := Data(SerializeKeyMap(FromMap(n)))];
    MapOthers(m, m', i, g);
    hide Elsewhere;
  }

  lemma MapErase(m: Store, i: uint8, g: uint16)
    ensures var m' := m - {MapKey(i, g)};
            Kept(MapTab(m, i), MapTab(m', i), g) && Elsewhere(m, m', i, MapKey(i, g))
  {
    MapOthers(m, m - {MapKey(i, g)}, i, g);
  }

  lemma MapOthers(m: Store, m': Store, i: uint8, g: uint16)
    requires forall x :: x != MapKey(i, g) ==> Blob(m', x) == Blob(m, x)
    ensures Kept(MapTab(m, i), MapTab(m', i), g) && Elsewhere(m, m', i, MapKey(i, g))
  {
    OtherTables(m, m', i, MapKey(i, g));
    hide ParseKeyMap, Blob, Elsewhere;
    forall x: uint16 | x != g
      ensures MapAt(m', i, x) == MapAt(m, i, x)
    {
      assert Blob(m', MapKey(i, x)) == Blob(m, MapKey(i, x));
    }
  }

  lemma KeysetWrite(m: Store, i: uint8, g: uint16, blob: bytes)
    requires AsKeyset(blob).Some?
    ensures var m' := m[KeysetKey(i, g) := Data(blob)];
            Kept(KeysetTab(m, i), KeysetTab(m', i), g) && g in KeysetTab(m', i) && KeysetTab(m', i)[g] == AsKeyset(blob).value
            && Elsewhere(m, m', i, KeysetKey(i, g))
  {
    hide AsKeyset;
    var m' := m[KeysetKey(i, g) := Data(blob)];
    KeysetOthers(m, m', i, g);
    hide Elsewhere;
  }

  lemma KeysetErase(m: Store, i: uint8, g: uint16)
    ensures var m' := m - {KeysetKey(i, g)};
            Kept(KeysetTab(m, i), KeysetTab(m', i), g) && Elsewhere(m, m', i, KeysetKey(i, g))
  {
    KeysetOthers(m, m - {KeysetKey(i, g)}, i, g);
  }

  lemma KeysetOthers(m: Store, m': Store, i: uint8, g: uint16)
    requires forall x :: x != KeysetKey(i, g) ==> Blob(m', x) == Blob(m, x)
    ensures Kept(KeysetTab(m, i), KeysetTab(m', i), g) && Elsewhere(m, m', i, KeysetKey(i, g))
  {
    OtherTables(m, m', i, KeysetKey(i, g));
    hide AsKeyset, Blob, Elsewhere;
    forall x: uint16 | x != g
      ensures KeysetAt(m', i, x) == KeysetAt(m, i, x)
    {
      assert Blob(m', KeysetKey(i, x)) == Blob(m, KeysetKey(i, x));
    }
  }

  lemma FabricWrite(m: Store, i: uint8, x: uint16, f: FabricData)
    ensures var m' := m[FabricKey(x) := Data(SerializeFabric(f))];
            Kept(FabricTab(m), FabricTab(m'), x) && x in FabricTab(m') && FabricTab(m')[x] == AsFabric(f)
            && Elsewhere(m, m', i, FabricKey(x))
  {
    hide ParseFabricData, SerializeFabric;
    FabricRoundTrip(f);
    var m' := m[FabricKey(x) := Data(SerializeFabric(f))];
    OtherTables(m, m', i, FabricKey(x));
    hide Elsewhere;
    forall y: uint16 | y != x
      ensures FabricAt(m', y) == FabricAt(m, y)
    {
      assert Blob(m', FabricKey(y)) == Blob(m, FabricKey(y));
    }
  }

  // ---------------------------------------------------------------- keyset records as nodes

  /** Relinking a record changes its link and nothing else. */
  lemma RelinkedNode(blob: bytes, n: uint16)
    requires AsKeyset(blob).Some?
    ensures KeysetWithNext(blob, n).Some?
    ensures AsKeyset(KeysetWithNext(blob, n).value) == Some(Node(AsKeyset(blob).value.val, n))
  {
    hide Fields, StructBytes, NextOf, HasNext, SetNext, ProperAll;
    NextImpliesHasNext(Fields(blob).value);
    LinkLaws(blob, n, 0);
    SetNextTwice(Fields(blob).value, n, 0);
  }

  /** Editing the first slot changes the contents accordingly and keeps the link. */
  lemma EditedNode(blob: bytes, s: Slot)
    requires AsKeyset(blob).Some?
    ensures KeysetWithSlot0(blob, s).Some? <==> SetSlot0(AsKeyset(blob).value.val, s).Some?
    ensures KeysetWithSlot0(blob, s).Some? ==>
              AsKeyset(KeysetWithSlot0(blob, s).value)
              == Some(Node(SetSlot0(AsKeyset(blob).value.val, s).value, AsKeyset(blob).value.next))
  {
    hide Fields, StructBytes, NextOf, HasNext, SetNext, SetSlot0, ProperAll, CtxLeaves;
    var ts := Fields(blob).value;
    EditsCommute(ts, 0, s);
    if SetSlot0(ts, s).Some? {
      FieldsAfterSlot0(blob, s);
      SetSlot0KeepsNext(ts, s);
    }
  }

  function ZeroKey(): Key16 { seq(16, _ => 0) }

  function SlotTree(s: Slot): Tree {
    Branch(Anonymous, StructStart,
           [Leaf(START, Uint(s.startTime)), Leaf(HASH, Uint(s.hash)), Leaf(KEY, Bytes(s.key))])
  }

  /** The elements of a record with one key, as the program writes it. */
  function NewKeyset(policy: uint16, s: Slot, next: uint16): seq<Tree> {
    [Leaf(Context(1), Uint(policy)),
     Leaf(Context(2), Uint(1)),
     Branch(KEYS, ArrayStart, [SlotTree(s), SlotTree(Slot(0, 0, ZeroKey())), SlotTree(Slot(0, 0, ZeroKey()))]),
     Leaf(NEXT, Uint(next))]
  }

  lemma SlotTreeProper(s: Slot)
    ensures Proper(SlotTree(s))
  {
  }

  lemma NewKeysetProper(policy: uint16, s: Slot, next: uint16)
    ensures ProperAll(NewKeyset(policy, s, next))
  {
    hide SlotTree, ProperAll;
    SlotTreeProper(s);
    SlotTreeProper(Slot(0, 0, ZeroKey()));
    AllProper([SlotTree(s), SlotTree(Slot(0, 0, ZeroKey())), SlotTree(Slot(0, 0, ZeroKey()))]);
    AllProper(NewKeyset(policy, s, next));
  }

  function SerializeKeyset(policy: uint16, s: Slot, next: uint16): (b: bytes)
    ensures b != []
  {
    NewKeysetProper(policy, s, next);
    StructBytes(NewKeyset(policy, s, next))
  }

  lemma NewKeysetLink(policy: uint16, s: Slot, next: uint16)
    ensures NextOf(NewKeyset(policy, s, next)) == Some(next)
    ensures SetNext(NewKeyset(policy, s, next), 0) == NewKeyset(policy, s, 0)
  {
    hide SlotTree;
    var ts := NewKeyset(policy, s, next);
    assert ts[1..][1..][1..][1..] == [];
    var fs := [Field(1, Uint(policy)), Field(2, Uint(1)), Field(7, Uint(next))];
    assert CtxLeaves(ts[1..][1..][1..]) == [Field(7, Uint(next))];
    assert CtxLeaves(ts[1..][1..]) == [Field(7, Uint(next))];
    assert CtxLeaves(ts[1..]) == [Field(2, Uint(1)), Field(7, Uint(next))];
    assert CtxLeaves(ts) == fs;
    hide CtxLeaves;
    LastU16At(fs, 7, 2);
    var r, t := SetNext(ts, 0), NewKeyset(policy, s, 0);
    assert |r| == |t| && forall k :: 0 <= k < |r| ==> r[k] == t[k];
    assert r == t;
  }

  lemma NewKeysetNode(policy: uint16, s: Slot, next: uint16)
    ensures AsKeyset(SerializeKeyset(policy, s, next)) == Some(Node(NewKeyset(policy, s, 0), next))
  {
    hide Fields, StructBytes, NewKeyset, NextOf, SetNext, ProperAll;
    NewKeysetProper(policy, s, next);
    FieldsOfStruct(NewKeyset(policy, s, next));
    NewKeysetLink(policy, s, next);
  }
}
