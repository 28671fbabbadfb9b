/** The operations on the stored group table: provisioning, removal, reading send credentials, and the rotation
    of the identity protection key (crates/mat-controller/src/group_settings.rs, crates/mat-controller/src/kvs.rs). */
module GroupSettings {
  import opened Wrappers
  import opened Records
  import opened KeysetRecord
  import opened KeysetReader
  import opened Chains
  import opened GroupStore
  import opened GroupView
  import opened GroupEditor
  import opened GroupTables

  const EPOCH_START_TIME: uint64 := 1
  const IPK_KEYSET_ID: uint16 := 0

  /** Key derivation, seen from outside: the operational key of an epoch key, and its session id. */
  datatype Crypto = Crypto(derive: (Key16, bytes) -> Key16, sessionId: Key16 -> uint16)

  function SlotOf(c: Crypto, epoch: Key16, cfid: bytes): Slot {
    var key := c.derive(epoch, cfid);
    Slot(EPOCH_START_TIME, c.sessionId(key), key)
  }

  /** Whether the file can be locked and read, and whether it can be replaced. */
  datatype Env = Env(opens: bool, commits: bool)

  /** The store on disk. Replacing it installs the new contents or leaves the old. */
  class KvsFile {
    var disk: Store

    method Commit(m: Store, env: Env) returns (r: Result<(), GroupError>)
      modifies this
      ensures if env.commits then r.Ok? && disk == m else r == Err(Io) && disk == old(disk)
    {
      if !env.commits { return Err(Io); }
      disk := m;
      return Ok(());
    }
  }

  function EmptyFabric(): FabricData { FabricData(0, 0, 0, 0, INVALID_KEYSET_ID, 0, 0) }

  /** The store holds exactly the table `v` for fabric `i`; a fabric without a record has an empty table. */
  ghost predicate OnDisk(m: Store, i: uint8, v: View) {
    if FabricKey(i) !in m then v == EmptyView()
    else
      && m[FabricKey(i)].Data? && ParseFabricData(m[FabricKey(i)].blob).Some?
      && Represents(m, i, ParseFabricData(m[FabricKey(i)].blob).value, v)
  }

  /** Keys that belong to the table of fabric `i`, and the list of fabrics. */
  predicate OfFabric(k: Key, i: uint8) {
    match k
    case ListKey => true
    case FabricKey(x) => x == i
    case GroupKey(f, _) => f == i
    case MapKey(f, _) => f == i
    case KeysetKey(f, _) => f == i
    case EpochKey(_, _) => false
  }

  ghost predicate OthersUntouched(m: Store, m': Store, i: uint8) {
    forall k: Key :: !OfFabric(k, i) ==> Untouched(m, m', k)
  }

  /** A store holds at most one table for a fabric. */
  lemma OnDiskOne(m: Store, i: uint8, v: View, w: View)
    requires OnDisk(m, i, v) && OnDisk(m, i, w)
    ensures v == w
  {
    hide Represents, ParseFabricData;
    if FabricKey(i) in m { RepresentsOne(m, i, ParseFabricData(m[FabricKey(i)].blob).value, v, w); }
  }

  /** What is written for one fabric does not show in the tables of the others. */
  lemma OtherFabricsKept(m: Store, m': Store, i: uint8, j: uint8, v: View)
    requires OthersUntouched(m, m', i) && j != i && OnDisk(m, j, v)
    ensures OnDisk(m', j, v)
  {
    hide ParseFabricData, GroupTab, MapTab, KeysetTab;
    assert Untouched(m, m', FabricKey(j));
    forall g: uint16
      ensures Blob(m', GroupKey(j, g)) == Blob(m, GroupKey(j, g))
      ensures Blob(m', MapKey(j, g)) == Blob(m, MapKey(j, g))
      ensures Blob(m', KeysetKey(j, g)) == Blob(m, KeysetKey(j, g))
    {
      assert Untouched(m, m', GroupKey(j, g)) && Untouched(m, m', MapKey(j, g)) && Untouched(m, m', KeysetKey(j, g));
    }
    GroupsFrame(m, m', j);
    MapsFrame(m, m', j);
    KeysetsFrame(m, m', j);
  }

  lemma EmptyIsHeld(m: Store, i: uint8)
    ensures Represents(m, i, EmptyFabric(), EmptyView())
  {
  }

  lemma SavedRecord(m: Store, i: uint8, f: FabricData, v: View)
    requires Represents(m, i, f, v)
    ensures OnDisk(m[FabricKey(i) := Data(SerializeFabric(f))], i, v)
    ensures SlotZero(m[FabricKey(i) := Data(SerializeFabric(f))], i) == SlotZero(m, i)
  {
    hide ParseFabricData, SerializeFabric, GroupTab, MapTab, KeysetTab, FabricTab, Slot0;
    FabricWrite(m, i, i, f);
    FabricRoundTrip(f);
  }

  lemma RecordLink(m: Store, i: uint8, f: FabricData)
    requires FabricKey(i) in m ==> m[FabricKey(i)].Data? && ParseFabricData(m[FabricKey(i)].blob) == Some(f)
    ensures SameLink(m, i, f)
  {
    hide ParseFabricData;
  }

  /** The fabric record of a store, an empty one when there is none. */
  function OpenFabric(m: Store, i: uint8): Result<FabricData, GroupError> {
    match ReadCell(m, FabricKey(i), Undecodable(FabricKey(i)))
    case Err(e) => Err(e)
    case Ok(None) => Ok(EmptyFabric())
    case Ok(Some(b)) =>
      match ParseFabricData(b)
      case None => Err(Corrupt(FabricKey(i)))
      case Some(f) => Ok(f)
  }

  lemma OpenedHolds(m: Store, i: uint8, v: View)
    requires OnDisk(m, i, v)
    ensures OpenFabric(m, i).Ok? && Represents(m, i, OpenFabric(m, i).value, v)
    ensures SameLink(m, i, OpenFabric(m, i).value)
  {
    hide ParseFabricData, Represents, SameLink;
    EmptyIsHeld(m, i);
    RecordLink(m, i, OpenFabric(m, i).value);
  }

  ghost predicate FabricRoom(fabs: seq<uint16>, i: uint8) { (i as uint16) in fabs || |fabs| < 0xFFFF }

  lemma ListsKept(m: Store, m': Store, fabs: seq<uint16>, i: uint8, f: FabricData, f': FabricData)
    requires forall k: Key :: k.FabricKey? || k.ListKey? ==> Untouched(m, m', k)
    requires f'.next == f.next
    ensures Lists(m, fabs) ==> Lists(m', fabs)
    ensures SameLink(m, i, f) ==> SameLink(m', i, f')
  {
    hide FabricTab, ParseFabricList, Linked;
    assert Untouched(m, m', ListKey);
    forall x: uint16
      ensures Blob(m', FabricKey(x)) == Blob(m, FabricKey(x))
    {
      assert Untouched(m, m', FabricKey(x));
    }
    FabricsFrame(m, m');
  }

  lemma HoldsKept(m: Store, m': Store, i: uint8, f: FabricData, f': FabricData, v: View)
    requires Represents(m, i, f, v) && f' == f.(next := f'.next)
    requires forall k: Key :: k != ListKey ==> Untouched(m, m', k)
    ensures Represents(m', i, f', v)
  {
    hide GroupTab, MapTab, KeysetTab, FabricTab;
    forall k: Key | k != ListKey
      ensures Blob(m', k) == Blob(m, k)
    {
      assert Untouched(m, m', k);
    }
    OtherTables(m, m', i, ListKey);
  }

  /** Keys of the records in the three lists of fabric `i`. */
  predicate InTable(k: Key, i: uint8) { (k.GroupKey? || k.MapKey? || k.KeysetKey?) && k.fab == i }

  /** The edits of provisioning on an opened store, up to the list of fabrics. */
  method ProvisionSteps(ed: Editor, w: ProvisionWrite, s: Slot, ghost v: View) returns (r: Result<(), GroupError>)
    requires w.keysetId != IPK_KEYSET_ID
    modifies ed
    ensures old(ed.Holds(v)) && HasRoom(v, w) ==>
              match Provision(v, ed.idx, w, s)
              case Err(e) => r == Err(e)
              case Ok(v') => r.Ok? && ed.Holds(v')
    ensures forall k: Key :: !InTable(k, ed.idx) ==> Untouched(old(ed.m), ed.m, k)
    ensures Untouched(old(ed.m), ed.m, KeysetKey(ed.idx, IPK_KEYSET_ID))
    ensures ed.fabric.next == old(ed.fabric.next) && (old(ed.Logged()) ==> ed.Logged())
  {
    hide Represents, PutGroup, PutKeyset, Bind, TruncateName, HasId;
    ghost var v1 := v.(groups := PutGroup(v.groups, w.groupId, TruncateName(w.name)));
    ghost var v2 := if PutKeyset(v.keysets, w.keysetId, s).Some?
                    then v1.(keysets := PutKeyset(v.keysets, w.keysetId, s).value) else v1;
    r := ed.WriteGroup(w.groupId, w.name, v);
    if r.Err? { return; }
    ghost var m1 := ed.m;
    r := ed.WriteKeyset(w.keysetId, s, v1);
    UntouchedTwice(old(ed.m), m1, ed.m);
    if r.Err? { return; }
    ghost var m2 := ed.m;
    r := ed.WriteKeymap(w.groupId, w.keysetId, w.rebind, v2);
    UntouchedTwice(old(ed.m), m2, ed.m);
  }

  lemma UntouchedTwice(a: Store, b: Store, c: Store)
    ensures forall k: Key {:trigger Untouched(a, c, k)} :: Untouched(a, b, k) && Untouched(b, c, k) ==> Untouched(a, c, k)
  {
  }

  /** `mat group provision`: all edits of one fabric in one transaction. */
  method WriteGroupProvision(
    file: KvsFile, idx: uint8, cfid: bytes, w: ProvisionWrite, c: Crypto, env: Env,
    ghost v: View, ghost fabs: seq<uint16>)
    returns (r: Result<(), GroupError>, ghost edits: seq<Edit>)
    modifies file
    ensures r.Err? ==> file.disk == old(file.disk)
    ensures file.disk == Applied(old(file.disk), edits) && Storable(edits)
    ensures w.keysetId == IPK_KEYSET_ID ==> r == Err(IpkKeysetReserved)
    ensures OthersUntouched(old(file.disk), file.disk, idx)
    ensures SlotZero(file.disk, idx) == old(SlotZero(file.disk, idx))
    ensures old(OnDisk(file.disk, idx, v)) && HasRoom(v, w) && w.keysetId != IPK_KEYSET_ID && env.opens ==>
              match Provision(v, idx, w, SlotOf(c, w.epochKey, cfid))
              case Err(e) => r == Err(e)
              case Ok(v') =>
                && (r.Ok? ==> OnDisk(file.disk, idx, v'))
                && (old(Lists(file.disk, fabs)) && FabricRoom(fabs, idx) ==>
                      (r.Ok? <==> env.commits) && (r.Ok? ==> Lists(file.disk, Registered(fabs, idx))))
  {
    hide Represents, ParseFabricData, SerializeFabric, Provision, Lists, SameLink, HasId, Slot0, Applied, Storable;
    edits := [];
    NoEdits(file.disk);
    if w.keysetId == IPK_KEYSET_ID { return Err(IpkKeysetReserved), []; }
    if !env.opens { return Err(Io), []; }
    var disk := file.disk;
    var record := OpenFabric(disk, idx);
    if OnDisk(disk, idx, v) { OpenedHolds(disk, idx, v); }
    if record.Err? { return Err(record.error), []; }
    var ed := new Editor(idx, disk, record.value);
    r := ProvisionSteps(ed, w, SlotOf(c, w.epochKey, cfid), v);
    if r.Err? { return; }
    ghost var m1, f1 := ed.m, ed.fabric;
    LinkOfOpened(disk, idx);
    ListsKept(disk, m1, fabs, idx, record.value, f1);
    r := ed.WriteFabricList(fabs);
    UntouchedTwice(disk, m1, ed.m);
    if r.Err? { return; }
    ghost var v' := ProvisionedView(v, idx, w, SlotOf(c, w.epochKey, cfid));
    if Represents(m1, idx, f1, v') {
      HoldsKept(m1, ed.m, idx, f1, ed.fabric, v');
      SavedRecord(ed.m, idx, ed.fabric, v');
    }
    SlotKept(disk, ed.m, idx, ed.fabric);
    ghost var m2 := ed.m;
    ed.Set(FabricKey(idx), SerializeFabric(ed.fabric));
    UntouchedTwice(disk, m2, ed.m);
    r := file.Commit(ed.m, env);
    edits := if r.Ok? then ed.log else [];
  }

  lemma NoEdits(m: Store)
    ensures Applied(m, []) == m && Storable([])
  {
  }

  ghost function ProvisionedView(v: View, i: uint8, w: ProvisionWrite, s: Slot): View {
    if MaxId(v.maps) < 0xFFFF && Provision(v, i, w, s).Ok? then Provision(v, i, w, s).value else v
  }

  lemma LinkOfOpened(m: Store, i: uint8)
    requires OpenFabric(m, i).Ok?
    ensures SameLink(m, i, OpenFabric(m, i).value)
  {
    hide ParseFabricData;
  }

  lemma SlotKept(m: Store, m': Store, i: uint8, f: FabricData)
    requires Untouched(m, m', KeysetKey(i, 0))
    ensures SlotZero(m', i) == SlotZero(m, i)
    ensures SlotZero(m'[FabricKey(i) := Data(SerializeFabric(f))], i) == SlotZero(m, i)
  {
    hide Slot0, SerializeFabric;
  }

  // ---------------------------------------------------------------- removing a group

  /** Index of the entry with this id, the number of entries when there is none. */
  method IndexOf(groups: seq<Found<GroupInfo>>, gid: uint16) returns (pos: nat)
    ensures pos <= |groups| && (pos < |groups| ==> groups[pos].id == gid)
    ensures forall j :: 0 <= j < pos ==> groups[j].id != gid
  {
    pos := 0;
    while pos < |groups| && groups[pos].id != gid
      invariant pos <= |groups| && forall j :: 0 <= j < pos ==> groups[j].id != gid
    {
      pos := pos + 1;
    }
  }

  /** The removal edits on an opened store; tells whether a keyset went. */
  method RemoveSteps(ed: Editor, gid: uint16, ghost v: View) returns (r: Result<bool, GroupError>)
    modifies ed
    ensures old(ed.Holds(v)) ==>
              match Remove(v, gid)
              case Err(e) => r == Err(e)
              case Ok(v') => r == Ok(v'.keysets != v.keysets) && ed.Holds(v')
    ensures forall k: Key :: !InTable(k, ed.idx) ==> Untouched(old(ed.m), ed.m, k)
    ensures SlotZero(ed.m, ed.idx) == old(SlotZero(ed.m, ed.idx))
    ensures ed.fabric.next == old(ed.fabric.next) && (old(ed.Logged()) ==> ed.Logged())
  {
    hide Represents, Keep, Dropped, Unused, KeepIds, Scanned, GroupTab, MapTab, Slot0, Find, HasId;
    ghost var good := ed.Holds(v);
    ghost var m0 := ed.m;
    var groups := ed.ScanGroups(v);
    if groups.Err? { return Err(groups.error); }
    var pos: nat := IndexOf(groups.value, gid);
    if good { FoundGroup(GroupTab(ed.m, ed.idx), v.groups, groups.value, gid, pos); }
    if pos == |groups.value| { return Err(NotFound(gid)); }
    ed.UnlinkGroupAt(groups.value, pos, v);
    ghost var m1 := ed.m;
    ghost var v1 := if good then v.(groups := Without(v.groups, pos)) else v;
    var entries := ed.ScanMap(v1);
    if entries.Err? { return Err(entries.error); }
    var left, removed := ed.UnlinkKeymaps(entries.value, OfGroup(gid), v1);
    UntouchedTwice(m0, m1, ed.m);
    ghost var m2 := ed.m;
    ghost var v2 := v1.(maps := Keep(v1.maps, OfGroup(gid)));
    r := ed.UnlinkUnused(removed, left, v2);
    UntouchedTwice(m0, m2, ed.m);
    if good { AnyGone(v.keysets, Unused(removed, v2.maps)); }
  }

  lemma FoundGroup(
    tab: Table<GroupInfo>, rows: seq<Row<GroupInfo>>, groups: seq<Found<GroupInfo>>, gid: uint16, pos: nat)
    requires Scanned(tab, rows, groups) && pos <= |groups|
    requires pos < |groups| ==> groups[pos].id == gid
    requires forall j :: 0 <= j < pos ==> groups[j].id != gid
    ensures |groups| == |rows| && Find(rows, gid) == pos
  {
    if pos < |rows| { FindAt(rows, gid, pos); } else { FindNone(rows, gid); }
  }

  /** A list loses something exactly when one of its ids goes. */
  lemma AnyGone<T>(rows: seq<Row<T>>, gone: set<uint16>)
    ensures KeepIds(rows, gone) != rows <==> exists k: nat :: k < |rows| && rows[k].id in gone
  {
    if k: nat :| k < |rows| && rows[k].id in gone {
      KeptHas(rows, gone, rows[k].id);
      assert HasId(rows, rows[k].id);
    } else {
      KeepIdsNone(rows, gone);
    }
  }

  /** `mat group remove`: one transaction; the list of fabrics is not touched. */
  method RemoveGroup(
    file: KvsFile, idx: uint8, gid: uint16, env: Env, ghost v: View, ghost fabs: seq<uint16>)
    returns (r: Result<bool, GroupError>, ghost edits: seq<Edit>)
    modifies file
    ensures r.Err? ==> file.disk == old(file.disk)
    ensures file.disk == Applied(old(file.disk), edits) && Storable(edits)
    ensures OthersUntouched(old(file.disk), file.disk, idx)
    ensures SlotZero(file.disk, idx) == old(SlotZero(file.disk, idx))
    ensures old(OnDisk(file.disk, idx, v)) && env.opens ==>
              match Remove(v, gid)
              case Err(e) => r == Err(e)
              case Ok(v') =>
                if env.commits then r == Ok(v'.keysets != v.keysets) && OnDisk(file.disk, idx, v') else r == Err(Io)
    ensures old(Lists(file.disk, fabs)) ==> Lists(file.disk, fabs)
  {
    hide Represents, ParseFabricData, SerializeFabric, Remove, Lists, SameLink, HasId, Slot0, Applied, Storable;
    edits := [];
    NoEdits(file.disk);
    if !env.opens { return Err(Io), []; }
    var disk := file.disk;
    var record := OpenFabric(disk, idx);
    if OnDisk(disk, idx, v) { OpenedHolds(disk, idx, v); }
    if record.Err? { return Err(record.error), []; }
    if FabricKey(idx) !in disk {
      NothingToRemove(gid);
      return Err(NotFound(gid)), [];
    }
    var ed := new Editor(idx, disk, record.value);
    r := RemoveSteps(ed, gid, v);
    if r.Err? { return; }
    ghost var m1 := ed.m;
    if OnDisk(disk, idx, v) { SavedRecord(m1, idx, ed.fabric, Remove(v, gid).value); }
    SlotSaved(m1, idx, ed.fabric);
    if Lists(disk, fabs) { StillListed(disk, m1, fabs, idx, record.value, ed.fabric); }
    ed.Set(FabricKey(idx), SerializeFabric(ed.fabric));
    UntouchedTwice(disk, m1, ed.m);
    var committed := file.Commit(ed.m, env);
    if committed.Err? { return Err(committed.error), []; }
    edits := ed.log;
  }

  lemma NothingToRemove(gid: uint16)
    ensures Remove(EmptyView(), gid) == Err(NotFound(gid))
  {
  }

  lemma SlotSaved(m: Store, i: uint8, f: FabricData)
    ensures SlotZero(m[FabricKey(i) := Data(SerializeFabric(f))], i) == SlotZero(m, i)
  {
    hide Slot0, SerializeFabric;
  }

  /** Saving the record of a fabric with its old link keeps the list of fabrics. */
  lemma StillListed(m: Store, m': Store, fabs: seq<uint16>, i: uint8, f: FabricData, f': FabricData)
    requires Lists(m, fabs) && FabricKey(i) in m && OpenFabric(m, i) == Ok(f) && f'.next == f.next
    requires forall k: Key :: k.FabricKey? || k.ListKey? ==> Untouched(m, m', k)
    ensures Lists(m'[FabricKey(i) := Data(SerializeFabric(f'))], fabs)
  {
    hide ParseFabricData, ParseFabricList, SerializeFabric, FabricTab, Elsewhere;
    RecordLink(m, i, f);
    ListsKept(m, m', fabs, i, f, f');
    FabricWrite(m', i, i, f');
  }
}
