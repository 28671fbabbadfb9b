/** The group table of one fabric as sequences, and what each edit of the stored lists does to them
    (crates/mat-controller/src/group_settings.rs). */
module GroupView {
  import opened Wrappers
  import opened TlvCodec
  import opened Records
  import opened KeysetRecord
  import opened Chains
  import opened GroupStore

  const INVALID_KEYSET_ID: uint16 := 0xFFFF
  const INVALID_ENDPOINT_ID: uint16 := 0xFFFF

  /** The groups in list order, the bindings in list order, the keysets in list order. */
  datatype View = View(groups: seq<Row<GroupInfo>>, maps: seq<Row<Binding>>, keysets: seq<Row<Keyset>>)

  /** The store holds exactly `v` for fabric `i` whose record is `f`. */
  ghost predicate Represents(m: Store, i: uint8, f: FabricData, v: View) {
    && Chain(GroupTab(m, i), f.firstGroup, v.groups) && |v.groups| == f.groupCount
    && Chain(MapTab(m, i), f.firstMap, v.maps) && |v.maps| == f.mapCount
    && Chain(KeysetTab(m, i), f.firstKeyset, v.keysets) && |v.keysets| == f.keysetCount
  }

  /** A store represents at most one view. */
  lemma RepresentsOne(m: Store, i: uint8, f: FabricData, v: View, w: View)
    requires Represents(m, i, f, v) && Represents(m, i, f, w)
    ensures v == w
  {
    ChainUnique(GroupTab(m, i), f.firstGroup, v.groups, w.groups);
    ChainUnique(MapTab(m, i), f.firstMap, v.maps, w.maps);
    ChainUnique(KeysetTab(m, i), f.firstKeyset, v.keysets, w.keysets);
  }

  // ---------------------------------------------------------------- names

  const GROUP_NAME_MAX: nat := 16

  /** The longest prefix of whole characters within `budget` bytes. */
  function Cut(name: bytes, budget: nat): (r: bytes)
    requires ValidUtf8(name)
    ensures r <= name && |r| <= budget
    decreases |name|
  {
    if name == [] || CharLen(name) > budget then []
    else name[..CharLen(name)] + Cut(name[CharLen(name)..], budget - CharLen(name))
  }

  lemma {:induction false} CutIsText(name: bytes, budget: nat)
    requires ValidUtf8(name)
    ensures ValidUtf8(Cut(name, budget))
    decreases |name|
  {
    if name != [] && CharLen(name) <= budget {
      var n := CharLen(name);
      var rest := Cut(name[n..], budget - n);
      CutIsText(name[n..], budget - n);
      CharLenOfPrefix(name, rest);
      assert (name[..n] + rest)[n..] == rest;
    }
  }

  /** The first character is found again when only what follows it changes. */
  lemma CharLenOfPrefix(name: bytes, rest: bytes)
    requires CharLen(name) > 0
    ensures CharLen(name[..CharLen(name)] + rest) == CharLen(name)
  {
    var n := CharLen(name);
    var b := name[..n] + rest;
    assert forall k :: 0 <= k < n ==> b[k] == name[k];
  }

  /** Nothing is cut that would have fitted. */
  lemma {:induction false} CutIsLongest(name: bytes, budget: nat)
    requires ValidUtf8(name)
    ensures var r := Cut(name, budget);
            r == name || |r| + CharLen(name[|r|..]) > budget
    decreases |name|
  {
    hide CharLen, ValidUtf8;
    if name != [] && CharLen(name) <= budget {
      var n := CharLen(name);
      ValidTail(name);
      var tail := name[n..];
      CutIsLongest(tail, budget - n);
      var rest := Cut(tail, budget - n);
      TailOfTail(name, n, |rest|);
      assert Cut(name, budget) == name[..n] + rest;
      assert rest == tail ==> name[..n] + rest == name;
    } else if name != [] {
      assert name[0..] == name;
    }
  }

  lemma ValidTail(name: bytes)
    requires ValidUtf8(name) && name != []
    ensures CharLen(name) > 0 && ValidUtf8(name[CharLen(name)..])
  {
  }

  lemma TailOfTail(b: bytes, n: nat, k: nat)
    requires n + k <= |b|
    ensures b[n..][k..] == b[n + k..]
  {
  }

  function TruncateName(name: Name): Name {
    CutIsText(name, GROUP_NAME_MAX);
    Cut(name, GROUP_NAME_MAX)
  }

  // ---------------------------------------------------------------- edits of the sequences

  /** A known group is renamed in place, a new one goes to the end. */
  function PutGroup(rows: seq<Row<GroupInfo>>, gid: uint16, name: Name): seq<Row<GroupInfo>> {
    var k := Find(rows, gid);
    if k < |rows| then rows[k := Row(gid, rows[k].val.(name := name))]
    else rows + [Row(gid, GroupInfo(name, INVALID_ENDPOINT_ID, 0))]
  }

  /** A known keyset gets a new first slot, a new one goes to the front. */
  function PutKeyset(rows: seq<Row<Keyset>>, ksid: uint16, s: Slot): Option<seq<Row<Keyset>>> {
    var k := Find(rows, ksid);
    if k == |rows| then Some([Row(ksid, NewKeyset(0, s, 0))] + rows)
    else
      match SetSlot0(rows[k].val, s)
      case None => None
      case Some(val) => Some(rows[k := Row(ksid, val)])
  }

  function Keep<T>(rows: seq<Row<T>>, drop: T -> bool): (r: seq<Row<T>>)
  {
    if rows == [] then []
    else Keep(rows[..|rows| - 1], drop) + (if drop(rows[|rows| - 1].val) then [] else [rows[|rows| - 1]])
  }

  /** The contents `Keep` leaves out, in order. */
  function Dropped<T>(rows: seq<Row<T>>, drop: T -> bool): (r: seq<T>)
  {
    if rows == [] then []
    else Dropped(rows[..|rows| - 1], drop) + (if drop(rows[|rows| - 1].val) then [rows[|rows| - 1].val] else [])
  }

  /** The rows whose ids are not in `gone`. */
  function KeepIds<T>(rows: seq<Row<T>>, gone: set<uint16>): (r: seq<Row<T>>)
  {
    if rows == [] then []
    else
      KeepIds(rows[..|rows| - 1], gone) + (if rows[|rows| - 1].id in gone then [] else [rows[|rows| - 1]])
  }

  lemma {:induction false} KeepWithout<T>(rows: seq<Row<T>>, drop: T -> bool, k: nat)
    requires k < |rows| && drop(rows[k].val)
    ensures Keep(Without(rows, k), drop) == Keep(rows, drop)
    decreases |rows|
  {
    var last := |rows| - 1;
    if k < last {
      KeepWithout(rows[..last], drop, k);
      assert Without(rows, k)[..last - 1] == Without(rows[..last], k);
    } else {
      assert Without(rows, k) == rows[..last];
    }
  }

  /** Taking the first match first keeps the order of what is dropped. */
  lemma {:induction false} DroppedWithout<T>(rows: seq<Row<T>>, drop: T -> bool, k: nat)
    requires k < |rows| && drop(rows[k].val) && forall j :: 0 <= j < k ==> !drop(rows[j].val)
    ensures [rows[k].val] + Dropped(Without(rows, k), drop) == Dropped(rows, drop)
    decreases |rows|
  {
    var last := |rows| - 1;
    if k < last {
      DroppedWithout(rows[..last], drop, k);
      assert Without(rows, k)[..last - 1] == Without(rows[..last], k);
    } else {
      assert Without(rows, k) == rows[..last];
      NoneDropped(rows[..last], drop);
    }
  }

  lemma {:induction false} NoneDropped<T>(rows: seq<Row<T>>, drop: T -> bool)
    requires forall j :: 0 <= j < |rows| ==> !drop(rows[j].val)
    ensures Keep(rows, drop) == rows && Dropped(rows, drop) == []
    decreases |rows|
  {
    if rows != [] {
      NoneDropped(rows[..|rows| - 1], drop);
      assert rows[..|rows| - 1] + [rows[|rows| - 1]] == rows;
    }
  }

  lemma {:induction false} KeepIdsNone<T>(rows: seq<Row<T>>, gone: set<uint16>)
    requires forall j :: 0 <= j < |rows| ==> rows[j].id !in gone
    ensures KeepIds(rows, gone) == rows
    decreases |rows|
  {
    if rows != [] {
      KeepIdsNone(rows[..|rows| - 1], gone);
      assert rows[..|rows| - 1] + [rows[|rows| - 1]] == rows;
    }
  }

  lemma {:induction false} KeepIdsAgain<T>(rows: seq<Row<T>>, gone: set<uint16>, more: set<uint16>)
    ensures KeepIds(KeepIds(rows, gone), more) == KeepIds(rows, gone + more)
    decreases |rows|
  {
    if rows != [] {
      var front, last := rows[..|rows| - 1], rows[|rows| - 1];
      KeepIdsAgain(front, gone, more);
      if last.id !in gone {
        assert KeepIds(rows, gone)[..|KeepIds(rows, gone)| - 1] == KeepIds(front, gone);
      } else {
        assert KeepIds(rows, gone) == KeepIds(front, gone);
      }
    }
  }

  /** With distinct ids, taking out one entry by position or by id is the same. */
  lemma {:induction false} WithoutIsKeepIds<T>(rows: seq<Row<T>>, k: nat)
    requires DistinctIds(rows) && k < |rows|
    ensures KeepIds(rows, {rows[k].id}) == Without(rows, k)
    decreases |rows|
  {
    var last := |rows| - 1;
    var front := rows[..last];
    assert forall j :: 0 <= j < last ==> front[j] == rows[j];
    if k < last {
      assert rows[last].id != rows[k].id;
      WithoutIsKeepIds(front, k);
      hide KeepIds;
      assert Without(front, k) + [rows[last]] == Without(rows, k);
    } else {
      KeepIdsNone(front, {rows[k].id});
      assert front == Without(rows, k) == front + [];
    }
  }

  /** The largest id in use, 0 without entries. */
  function MaxId<T>(rows: seq<Row<T>>): (n: uint16)
    ensures forall k :: 0 <= k < |rows| ==> rows[k].id <= n
    ensures rows != [] ==> HasId(rows, n)
  {
    if rows == [] then 0
    else
      var n := MaxId(rows[..|rows| - 1]);
      var last := rows[|rows| - 1].id;
      assert rows[..|rows| - 1] != [] ==> exists k :: 0 <= k < |rows| - 1 && rows[k].id == n;
      if n < last then last else n
  }

  predicate Bound(rows: seq<Row<Binding>>, b: Binding) {
    exists k :: 0 <= k < |rows| && rows[k].val == b
  }

  function Same(b: Binding): Binding -> bool { x => x == b }

  /** A binding goes to the end under the id after the largest; `None` when it exists and may not be
      replaced. The ids of dropped rows still count. */
  function Bind(rows: seq<Row<Binding>>, b: Binding, rebind: bool): Option<seq<Row<Binding>>>
    requires MaxId(rows) < 0xFFFF
  {
    if rebind then Some(Keep(rows, Same(b)) + [Row(MaxId(rows) + 1, b)])
    else if Bound(rows, b) then None
    else Some(rows + [Row(MaxId(rows) + 1, b)])
  }

  /** What is kept are rows of the list that are not selected. */
  lemma {:induction false} KeptRows<T>(rows: seq<Row<T>>, drop: T -> bool)
    ensures forall k :: 0 <= k < |Keep(rows, drop)| ==>
              Keep(rows, drop)[k] in rows && !drop(Keep(rows, drop)[k].val)
  {
    if rows != [] { KeptRows(rows[..|rows| - 1], drop); }
  }

  // ---------------------------------------------------------------- group list edits

  lemma GroupRenamed(m: Store, i: uint8, f: FabricData, v: View, k: nat, name: Name)
    requires Represents(m, i, f, v) && k < |v.groups|
    ensures var g := v.groups[k].id;
            var n := GroupTab(m, i)[g];
            var m' := m[GroupKey(i, g) := Data(SerializeGroup(FromGroup(Node(n.val.(name := name), n.next))))];
            Represents(m', i, f, v.(groups := v.groups[k := Row(g, v.groups[k].val.(name := name))]))
  {
    hide SerializeGroup, GroupTab, MapTab, KeysetTab, FabricTab;
    var g := v.groups[k].id;
    var n := GroupTab(m, i)[g];
    var n' := Node(n.val.(name := name), n.next);
    GroupWrite(m, i, g, n');
    var m' := m[GroupKey(i, g) := Data(SerializeGroup(FromGroup(n')))];
    ChainUpdate(GroupTab(m, i), GroupTab(m', i), f.firstGroup, v.groups, k, n'.val);
  }

  /** The store after a new last group was written and its predecessor redirected. */
  function GroupAppended(m: Store, i: uint8, prev: Option<uint16>, gid: uint16, val: GroupInfo): Store
    requires prev.Some? ==> prev.value in GroupTab(m, i)
  {
    var m1 := m[GroupKey(i, gid) := Data(SerializeGroup(FromGroup(Node(val, 0))))];
    if prev.None? then m1
    else m1[GroupKey(i, prev.value) :=
              Data(SerializeGroup(FromGroup(GroupTab(m, i)[prev.value].(next := gid))))]
  }

  lemma GroupAdded(m: Store, i: uint8, f: FabricData, v: View, gid: uint16, val: GroupInfo)
    requires Represents(m, i, f, v) && !HasId(v.groups, gid) && |v.groups| < 0xFFFF
    ensures v.groups != [] ==> v.groups[|v.groups| - 1].id in GroupTab(m, i)
    ensures var prev := if v.groups == [] then None else Some(v.groups[|v.groups| - 1].id);
            Represents(
              GroupAppended(m, i, prev, gid, val), i,
              f.(groupCount := f.groupCount + 1, firstGroup := if v.groups == [] then gid else f.firstGroup),
              v.(groups := v.groups + [Row(gid, val)]))
  {
    hide SerializeGroup, GroupTab, MapTab, KeysetTab, FabricTab;
    GroupWrite(m, i, gid, Node(val, 0));
    var m1 := m[GroupKey(i, gid) := Data(SerializeGroup(FromGroup(Node(val, 0))))];
    if v.groups == [] {
      assert [Row(gid, val)] == v.groups + [Row(gid, val)];
    } else {
      var last := v.groups[|v.groups| - 1].id;
      var n := GroupTab(m, i)[last].(next := gid);
      GroupWrite(m1, i, last, n);
      var m2 := m1[GroupKey(i, last) := Data(SerializeGroup(FromGroup(n)))];
      assert GroupTab(m1, i)[gid].val == val && gid != last;
      ChainAppend(GroupTab(m, i), GroupTab(m2, i), f.firstGroup, v.groups, gid, val);
    }
  }

  lemma GroupUnlinked(m: Store, i: uint8, f: FabricData, v: View, k: nat)
    requires Represents(m, i, f, v) && k < |v.groups|
    ensures v.groups[k].id in GroupTab(m, i) && (k > 0 ==> v.groups[k - 1].id in GroupTab(m, i))
    ensures var id := v.groups[k].id;
            var next := GroupTab(m, i)[id].next;
            var m1 := m - {GroupKey(i, id)};
            Represents(
              if k == 0 then m1
              else m1[GroupKey(i, v.groups[k - 1].id) :=
                        Data(SerializeGroup(FromGroup(GroupTab(m, i)[v.groups[k - 1].id].(next := next))))],
              i, f.(groupCount := f.groupCount - 1, firstGroup := if k == 0 then next else f.firstGroup),
              v.(groups := Without(v.groups, k)))
  {
    hide SerializeGroup, GroupTab, MapTab, KeysetTab, FabricTab;
    var id := v.groups[k].id;
    var next := GroupTab(m, i)[id].next;
    var m1 := m - {GroupKey(i, id)};
    GroupErase(m, i, id);
    if k == 0 {
      ChainUnlinkFirst(GroupTab(m, i), GroupTab(m1, i), f.firstGroup, v.groups);
    } else {
      var prev := v.groups[k - 1].id;
      var n := GroupTab(m, i)[prev].(next := next);
      GroupWrite(m1, i, prev, n);
      var m2 := m1[GroupKey(i, prev) := Data(SerializeGroup(FromGroup(n)))];
      ChainUnlinkLater(GroupTab(m, i), GroupTab(m2, i), f.firstGroup, v.groups, k);
    }
  }

  // ---------------------------------------------------------------- binding list edits

  lemma MapAdded(m: Store, i: uint8, f: FabricData, v: View, id: uint16, val: Binding)
    requires Represents(m, i, f, v) && !HasId(v.maps, id) && |v.maps| < 0xFFFF
    ensures v.maps != [] ==> v.maps[|v.maps| - 1].id in MapTab(m, i)
    ensures var m1 := m[MapKey(i, id) := Data(SerializeKeyMap(FromMap(Node(val, 0))))];
            Represents(
              if v.maps == [] then m1
              else
                var last := v.maps[|v.maps| - 1].id;
                m1[MapKey(i, last) := Data(SerializeKeyMap(FromMap(MapTab(m, i)[last].(next := id))))],
              i, f.(mapCount := f.mapCount + 1, firstMap := if v.maps == [] then id else f.firstMap),
              v.(maps := v.maps + [Row(id, val)]))
  {
    hide SerializeKeyMap, GroupTab, MapTab, KeysetTab, FabricTab;
    MapWrite(m, i, id, Node(val, 0));
    var m1 := m[MapKey(i, id) := Data(SerializeKeyMap(FromMap(Node(val, 0))))];
    if v.maps == [] {
      assert [Row(id, val)] == v.maps + [Row(id, val)];
    } else {
      var last := v.maps[|v.maps| - 1].id;
      var n := MapTab(m, i)[last].(next := id);
      MapWrite(m1, i, last, n);
      var m2 := m1[MapKey(i, last) := Data(SerializeKeyMap(FromMap(n)))];
      assert MapTab(m1, i)[id].val == val && id != last;
      ChainAppend(MapTab(m, i), MapTab(m2, i), f.firstMap, v.maps, id, val);
    }
  }

  lemma MapUnlinked(m: Store, i: uint8, f: FabricData, v: View, k: nat)
    requires Represents(m, i, f, v) && k < |v.maps|
    ensures v.maps[k].id in MapTab(m, i) && (k > 0 ==> v.maps[k - 1].id in MapTab(m, i))
    ensures var id := v.maps[k].id;
            var next := MapTab(m, i)[id].next;
            var m1 := m - {MapKey(i, id)};
            Represents(
              if k == 0 then m1
              else m1[MapKey(i, v.maps[k - 1].id) :=
                        Data(SerializeKeyMap(FromMap(MapTab(m, i)[v.maps[k - 1].id].(next := next))))],
              i, f.(mapCount := f.mapCount - 1, firstMap := if k == 0 then next else f.firstMap),
              v.(maps := Without(v.maps, k)))
  {
    hide SerializeKeyMap, GroupTab, MapTab, KeysetTab, FabricTab;
    var id := v.maps[k].id;
    var next := MapTab(m, i)[id].next;
    var m1 := m - {MapKey(i, id)};
    MapErase(m, i, id);
    if k == 0 {
      ChainUnlinkFirst(MapTab(m, i), MapTab(m1, i), f.firstMap, v.maps);
    } else {
      var prev := v.maps[k - 1].id;
      var n := MapTab(m, i)[prev].(next := next);
      MapWrite(m1, i, prev, n);
      var m2 := m1[MapKey(i, prev) := Data(SerializeKeyMap(FromMap(n)))];
      ChainUnlinkLater(MapTab(m, i), MapTab(m2, i), f.firstMap, v.maps, k);
    }
  }

  // ---------------------------------------------------------------- keyset list edits

  lemma KeysetAdded(m: Store, i: uint8, f: FabricData, v: View, ksid: uint16, s: Slot)
    requires Represents(m, i, f, v) && !HasId(v.keysets, ksid) && |v.keysets| < 0xFFFF
    ensures Represents(
              m[KeysetKey(i, ksid) := Data(SerializeKeyset(0, s, f.firstKeyset))], i,
              f.(keysetCount := f.keysetCount + 1, firstKeyset := ksid),
              v.(keysets := [Row(ksid, NewKeyset(0, s, 0))] + v.keysets))
  {
    hide SerializeKeyset, GroupTab, MapTab, KeysetTab, FabricTab, AsKeyset, NewKeyset;
    NewKeysetNode(0, s, f.firstKeyset);
    KeysetWrite(m, i, ksid, SerializeKeyset(0, s, f.firstKeyset));
    var m' := m[KeysetKey(i, ksid) := Data(SerializeKeyset(0, s, f.firstKeyset))];
    ChainPrepend(KeysetTab(m, i), KeysetTab(m', i), f.firstKeyset, v.keysets, ksid, NewKeyset(0, s, 0));
  }

  lemma KeysetBlob(m: Store, i: uint8, g: uint16)
    requires g in KeysetTab(m, i)
    ensures Blob(m, KeysetKey(i, g)).Some?
    ensures AsKeyset(Blob(m, KeysetKey(i, g)).value) == Some(KeysetTab(m, i)[g])
  {
    hide AsKeyset;
  }

  lemma KeysetEdited(m: Store, i: uint8, f: FabricData, v: View, k: nat, s: Slot)
    requires Represents(m, i, f, v) && k < |v.keysets|
    ensures Blob(m, KeysetKey(i, v.keysets[k].id)).Some?
    ensures var id := v.keysets[k].id;
            var b := KeysetWithSlot0(Blob(m, KeysetKey(i, id)).value, s);
            && (b.Some? <==> SetSlot0(v.keysets[k].val, s).Some?)
            && (b.Some? ==>
                  Represents(m[KeysetKey(i, id) := Data(b.value)], i, f,
                             v.(keysets := v.keysets[k := Row(id, SetSlot0(v.keysets[k].val, s).value)])))
  {
    hide GroupTab, MapTab, KeysetTab, FabricTab, AsKeyset, KeysetWithSlot0, SetSlot0, Blob;
    var id := v.keysets[k].id;
    KeysetBlob(m, i, id);
    var blob := Blob(m, KeysetKey(i, id)).value;
    EditedNode(blob, s);
    var b := KeysetWithSlot0(blob, s);
    if b.Some? {
      KeysetWrite(m, i, id, b.value);
      var m' := m[KeysetKey(i, id) := Data(b.value)];
      ChainUpdate(KeysetTab(m, i), KeysetTab(m', i), f.firstKeyset, v.keysets, k,
                  SetSlot0(v.keysets[k].val, s).value);
    }
  }

  lemma KeysetUnlinked(m: Store, i: uint8, f: FabricData, v: View, k: nat)
    requires Represents(m, i, f, v) && k < |v.keysets|
    ensures v.keysets[k].id in KeysetTab(m, i)
    ensures k > 0 ==> v.keysets[k - 1].id in KeysetTab(m, i)
                      && Blob(m, KeysetKey(i, v.keysets[k - 1].id)).Some?
    ensures var id := v.keysets[k].id;
            var next := KeysetTab(m, i)[id].next;
            var m1 := m - {KeysetKey(i, id)};
            var b := if k == 0 then None
                     else KeysetWithNext(Blob(m, KeysetKey(i, v.keysets[k - 1].id)).value, next);
            && (k > 0 ==> b.Some?)
            && Represents(
                 if b.None? then m1 else m1[KeysetKey(i, v.keysets[k - 1].id) := Data(b.value)],
                 i, f.(keysetCount := f.keysetCount - 1, firstKeyset := if k == 0 then next else f.firstKeyset),
                 v.(keysets := Without(v.keysets, k)))
  {
    hide GroupTab, MapTab, KeysetTab, FabricTab, AsKeyset, KeysetWithNext, Blob;
    var id := v.keysets[k].id;
    var next := KeysetTab(m, i)[id].next;
    var m1 := m - {KeysetKey(i, id)};
    KeysetErase(m, i, id);
    if k == 0 {
      ChainUnlinkFirst(KeysetTab(m, i), KeysetTab(m1, i), f.firstKeyset, v.keysets);
    } else {
      var prev := v.keysets[k - 1].id;
      KeysetBlob(m, i, prev);
      var blob := Blob(m, KeysetKey(i, prev)).value;
      RelinkedNode(blob, next);
      var b := KeysetWithNext(blob, next).value;
      KeysetWrite(m1, i, prev, b);
      var m2 := m1[KeysetKey(i, prev) := Data(b)];
      ChainUnlinkLater(KeysetTab(m, i), KeysetTab(m2, i), f.firstKeyset, v.keysets, k);
    }
  }
}
