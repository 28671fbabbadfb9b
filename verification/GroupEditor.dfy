/** The editor of one fabric's group table: the code that walks and rewrites the stored lists
    (crates/mat-controller/src/group_settings.rs). */
module GroupEditor {
  import opened Wrappers
  import opened Records
  import opened KeysetRecord
  import opened KeysetReader
  import opened Chains
  import opened GroupStore
  import opened GroupView

  datatype GroupError =
    | DuplicateBind(groupId: uint16, keysetId: uint16)
    | Corrupt(key: Key)
    | NotFound(gid: uint16)
    | IpkKeysetReserved
    | Undecodable(key: Key)
    | Io

  ghost predicate Untouched(m: Store, m': Store, k: Key) {
    (k in m <==> k in m') && (k in m ==> m'[k] == m[k])
  }

  /** An entry of a list as a scan returns it. */
  datatype Found<T> = Found(id: uint16, node: Node<T>)

  /** The entries are the rows of a list together with their records. */
  ghost predicate Scanned<T>(tab: Table<T>, rows: seq<Row<T>>, entries: seq<Found<T>>) {
    |entries| == |rows|
    && forall k :: 0 <= k < |rows| ==>
         entries[k].id == rows[k].id && rows[k].id in tab && entries[k].node == tab[rows[k].id]
  }

  /** Index of the first selected entry, the number of entries when there is none. */
  method Position(entries: seq<Found<Binding>>, select: Binding -> bool) returns (pos: nat)
    ensures pos <= |entries| && (pos < |entries| ==> select(entries[pos].node.val))
    ensures forall j :: 0 <= j < pos ==> !select(entries[j].node.val)
  {
    pos := 0;
    while pos < |entries| && !select(entries[pos].node.val)
      invariant pos <= |entries| && forall j :: 0 <= j < pos ==> !select(entries[j].node.val)
    {
      pos := pos + 1;
    }
  }

  // ---------------------------------------------------------------- what a lookup finds

  lemma GroupLookup(m: Store, i: uint8, f: FabricData, v: View, j: nat)
    requires Represents(m, i, f, v) && j < |v.groups|
    ensures var b := Blob(m, GroupKey(i, v.groups[j].id));
            && b.Some? && ParseGroupData(b.value).Some?
            && v.groups[j].id in GroupTab(m, i)
            && AsGroup(ParseGroupData(b.value).value) == GroupTab(m, i)[v.groups[j].id]
            && GroupTab(m, i)[v.groups[j].id].val == v.groups[j].val
            && (j < |v.groups| - 1 ==> GroupTab(m, i)[v.groups[j].id].next == v.groups[j + 1].id)
  {
    hide ParseGroupData, MapTab, KeysetTab;
  }

  lemma MapLookup(m: Store, i: uint8, f: FabricData, v: View, j: nat)
    requires Represents(m, i, f, v) && j < |v.maps|
    ensures var b := Blob(m, MapKey(i, v.maps[j].id));
            && b.Some? && ParseKeyMap(b.value).Some?
            && v.maps[j].id in MapTab(m, i)
            && AsMap(ParseKeyMap(b.value).value) == MapTab(m, i)[v.maps[j].id]
            && MapTab(m, i)[v.maps[j].id].val == v.maps[j].val
            && (j < |v.maps| - 1 ==> MapTab(m, i)[v.maps[j].id].next == v.maps[j + 1].id)
  {
    hide ParseKeyMap, GroupTab, KeysetTab;
  }

  lemma KeysetLookup(m: Store, i: uint8, f: FabricData, v: View, j: nat)
    requires Represents(m, i, f, v) && j < |v.keysets|
    ensures var b := Blob(m, KeysetKey(i, v.keysets[j].id));
            && b.Some? && KeysetNext(b.value).Some?
            && v.keysets[j].id in KeysetTab(m, i)
            && AsKeyset(b.value) == Some(KeysetTab(m, i)[v.keysets[j].id])
            && KeysetTab(m, i)[v.keysets[j].id].val == v.keysets[j].val
            && KeysetTab(m, i)[v.keysets[j].id].next == KeysetNext(b.value).value
            && (j < |v.keysets| - 1 ==> KeysetTab(m, i)[v.keysets[j].id].next == v.keysets[j + 1].id)
  {
    hide KeysetNext, GroupTab, MapTab, SetNext;
  }

  class Editor {
    const idx: uint8
    var m: Store
    var fabric: FabricData
    /** The store as it was opened, and what was written since. */
    ghost const start: Store
    ghost var log: seq<Edit>

    constructor (idx: uint8, m: Store, fabric: FabricData)
      ensures this.idx == idx && this.m == m && this.fabric == fabric
      ensures start == m && log == [] && Logged()
    {
      this.idx, this.m, this.fabric := idx, m, fabric;
      start, log := m, [];
    }

    /** The store is the opened one with the logged edits. */
    ghost predicate Logged()
      reads `m, `log
    {
      m == Applied(start, log) && Storable(log)
    }

    /** The store and the fabric record hold `v`. */
    ghost predicate Holds(v: View)
      reads this
    {
      Represents(m, idx, fabric, v)
    }

    /** A record that must be there. */
    function Must(k: Key): (r: Result<bytes, GroupError>)
      reads this
      ensures r.Ok? <==> Blob(m, k).Some?
      ensures r.Ok? ==> r.value == Blob(m, k).value
    {
      match ReadCell(m, k, Undecodable(k))
      case Err(e) => Err(e)
      case Ok(None) => Err(Corrupt(k))
      case Ok(Some(b)) => Ok(b)
    }

    method Set(k: Key, blob: bytes)
      modifies `m, `log
      ensures m == old(m)[k := Data(blob)] && log == old(log) + [Edit.Put(k, blob)]
      ensures blob != [] && old(Logged()) ==> Logged()
    {
      AppliedSnoc(start, log, Edit.Put(k, blob));
      m, log := m[k := Data(blob)], log + [Edit.Put(k, blob)];
    }

    method Remove(k: Key)
      modifies `m, `log
      ensures m == old(m) - {k} && log == old(log) + [Erase(k)]
      ensures old(Logged()) ==> Logged()
    {
      AppliedSnoc(start, log, Erase(k));
      m, log := m - {k}, log + [Erase(k)];
    }

    /** Adds a group at the end of the list. */
    method AppendGroup(gid: uint16, name: Name, tail: Option<uint16>, ghost v: View)
      returns (r: Result<(), GroupError>)
      requires tail.None? <==> fabric.groupCount == 0
      modifies this
      ensures old(Holds(v)) && |v.groups| < 0xFFFF && !HasId(v.groups, gid)
              && (v.groups != [] ==> tail == Some(v.groups[|v.groups| - 1].id)) ==>
                r.Ok? && Holds(v.(groups := v.groups + [Row(gid, GroupInfo(name, INVALID_ENDPOINT_ID, 0))]))
      ensures forall k: Key :: !(k.GroupKey? && k.fab == idx) ==> Untouched(old(m), m, k)
      ensures fabric.next == old(fabric.next) && (old(Logged()) ==> Logged())
    {
      hide Logged, Represents, ParseGroupData, SerializeGroup, GroupTab;
      if Holds(v) && |v.groups| < 0xFFFF && !HasId(v.groups, gid) {
        Lengths(m, idx, fabric, v);
        GroupAdded(m, idx, fabric, v, gid, GroupInfo(name, INVALID_ENDPOINT_ID, 0));
        if v.groups != [] { GroupLookup(m, idx, fabric, v, |v.groups| - 1); }
      }
      Set(GroupKey(idx, gid), SerializeGroup(GroupData(name, INVALID_ENDPOINT_ID, 0, 0)));
      if tail.None? {
        fabric := fabric.(firstGroup := gid);
      } else {
        var key := GroupKey(idx, tail.value);
        var blob := Must(key);
        if blob.Err? { return Err(blob.error); }
        var gd := ParseGroupData(blob.value);
        if gd.None? { return Err(Corrupt(key)); }
        Set(key, SerializeGroup(gd.value.(next := gid)));
      }
      fabric := fabric.(groupCount := Succ16(fabric.groupCount));
      return Ok(());
    }

    /** Adds a group at the end of the list, or renames it where it is. */
    method WriteGroup(gid: uint16, name: Name, ghost v: View) returns (r: Result<(), GroupError>)
      modifies this
      ensures old(Holds(v)) && (HasId(v.groups, gid) || |v.groups| < 0xFFFF) ==>
                r.Ok? && Holds(v.(groups := PutGroup(v.groups, gid, TruncateName(name))))
      ensures forall k: Key :: !(k.GroupKey? && k.fab == idx) ==> Untouched(old(m), m, k)
      ensures fabric.next == old(fabric.next) && (old(Logged()) ==> Logged())
    {
      hide Logged, Represents, ParseGroupData, SerializeGroup, GroupTab, TruncateName;
      ghost var good := Holds(v);
      var short := TruncateName(name);
      var cur := fabric.firstGroup;
      var tail: Option<uint16> := None;
      if good { Lengths(m, idx, fabric, v); }
      for j := 0 to fabric.groupCount
        invariant m == old(m) && fabric == old(fabric) && log == old(log)
        invariant good && j < |v.groups| ==> cur == v.groups[j].id
        invariant good ==> forall l :: 0 <= l < j ==> v.groups[l].id != gid
        invariant tail.None? <==> j == 0
        invariant good && j > 0 ==> tail == Some(v.groups[j - 1].id)
      {
        var key := GroupKey(idx, cur);
        if good { GroupLookup(m, idx, fabric, v, j); }
        var blob := Must(key);
        if blob.Err? { return Err(blob.error); }
        var gd := ParseGroupData(blob.value);
        if gd.None? { return Err(Corrupt(key)); }
        if cur == gid {
          if good {
            GroupRenamed(m, idx, fabric, v, j, short);
            FindAt(v.groups, gid, j);
          }
          Set(key, SerializeGroup(gd.value.(name := short)));
          return Ok(());
        }
        tail := Some(cur);
        cur := gd.value.next;
      }
      if good { FindNone(v.groups, gid); }
      r := AppendGroup(gid, short, tail, v);
    }

    /** Rewrites the first slot of a known keyset, or puts a new keyset at the head of the list. */
    method WriteKeyset(ksid: uint16, s: Slot, ghost v: View) returns (r: Result<(), GroupError>)
      modifies this
      ensures old(Holds(v)) && (HasId(v.keysets, ksid) || |v.keysets| < 0xFFFF) ==>
                match PutKeyset(v.keysets, ksid, s)
                case None => r == Err(Corrupt(KeysetKey(idx, ksid)))
                case Some(rows) => r.Ok? && Holds(v.(keysets := rows))
      ensures forall k: Key :: k != KeysetKey(idx, ksid) ==> Untouched(old(m), m, k)
      ensures fabric.next == old(fabric.next) && (old(Logged()) ==> Logged())
    {
      hide Logged, Represents, KeysetNext, KeysetWithSlot0, KeysetTab, SetSlot0, AsKeyset, SerializeKeyset, NewKeyset;
      ghost var good := Holds(v);
      var cur := fabric.firstKeyset;
      if good { Lengths(m, idx, fabric, v); }
      for j := 0 to fabric.keysetCount
        invariant m == old(m) && fabric == old(fabric) && log == old(log)
        invariant good && j < |v.keysets| ==> cur == v.keysets[j].id
        invariant good ==> forall l :: 0 <= l < j ==> v.keysets[l].id != ksid
      {
        var key := KeysetKey(idx, cur);
        if good { KeysetLookup(m, idx, fabric, v, j); }
        var blob := Must(key);
        if blob.Err? { return Err(blob.error); }
        if cur == ksid {
          if good {
            KeysetEdited(m, idx, fabric, v, j, s);
            FindAt(v.keysets, ksid, j);
          }
          var edited := KeysetWithSlot0(blob.value, s);
          if edited.None? { return Err(Corrupt(key)); }
          Set(key, edited.value);
          return Ok(());
        }
        var next := KeysetNext(blob.value);
        if next.None? { return Err(Corrupt(key)); }
        cur := next.value;
      }
      if good {
        FindNone(v.keysets, ksid);
        if |v.keysets| < 0xFFFF { KeysetAdded(m, idx, fabric, v, ksid, s); }
      }
      Set(KeysetKey(idx, ksid), SerializeKeyset(0, s, fabric.firstKeyset));
      fabric := fabric.(firstKeyset := ksid, keysetCount := Succ16(fabric.keysetCount));
      return Ok(());
    }

    // -------------------------------------------------------------- scans

    /** All bindings, in list order. */
    method ScanMap(ghost v: View) returns (r: Result<seq<Found<Binding>>, GroupError>)
      ensures Holds(v) ==> r.Ok? && Scanned(MapTab(m, idx), v.maps, r.value)
      ensures r.Ok? ==> |r.value| == fabric.mapCount
    {
      hide Logged, Represents, ParseKeyMap, MapTab;
      ghost var good := Holds(v);
      if good { Lengths(m, idx, fabric, v); }
      var cur := fabric.firstMap;
      var entries: seq<Found<Binding>> := [];
      for j := 0 to fabric.mapCount
        invariant |entries| == j
        invariant good && j < |v.maps| ==> cur == v.maps[j].id
        invariant good ==> Scanned(MapTab(m, idx), v.maps[..j], entries)
      {
        var key := MapKey(idx, cur);
        if good { MapLookup(m, idx, fabric, v, j); }
        var blob := Must(key);
        if blob.Err? { return Err(blob.error); }
        var km := ParseKeyMap(blob.value);
        if km.None? { return Err(Corrupt(key)); }
        entries := entries + [Found(cur, AsMap(km.value))];
        cur := km.value.next;
      }
      assert good ==> v.maps[..fabric.mapCount] == v.maps;
      return Ok(entries);
    }

    /** All groups, in list order. */
    method ScanGroups(ghost v: View) returns (r: Result<seq<Found<GroupInfo>>, GroupError>)
      ensures Holds(v) ==> r.Ok? && Scanned(GroupTab(m, idx), v.groups, r.value)
      ensures r.Ok? ==> |r.value| == fabric.groupCount
    {
      hide Logged, Represents, ParseGroupData, GroupTab;
      ghost var good := Holds(v);
      if good { Lengths(m, idx, fabric, v); }
      var cur := fabric.firstGroup;
      var entries: seq<Found<GroupInfo>> := [];
      for j := 0 to fabric.groupCount
        invariant |entries| == j
        invariant good && j < |v.groups| ==> cur == v.groups[j].id
        invariant good ==> Scanned(GroupTab(m, idx), v.groups[..j], entries)
      {
        var key := GroupKey(idx, cur);
        if good { GroupLookup(m, idx, fabric, v, j); }
        var blob := Must(key);
        if blob.Err? { return Err(blob.error); }
        var gd := ParseGroupData(blob.value);
        if gd.None? { return Err(Corrupt(key)); }
        entries := entries + [Found(cur, AsGroup(gd.value))];
        cur := gd.value.next;
      }
      assert good ==> v.groups[..fabric.groupCount] == v.groups;
      return Ok(entries);
    }

    /** All keysets with their raw records, in list order. */
    method ScanKeysets(ghost v: View) returns (r: Result<seq<(uint16, bytes)>, GroupError>)
      ensures Holds(v) ==> r.Ok? && |r.value| == |v.keysets|
      ensures Holds(v) ==> forall k :: 0 <= k < |v.keysets| ==> r.value[k].0 == v.keysets[k].id
      ensures r.Ok? ==> forall k :: 0 <= k < |r.value| ==>
                          Blob(m, KeysetKey(idx, r.value[k].0)) == Some(r.value[k].1)
                          && KeysetNext(r.value[k].1).Some?
      ensures r.Ok? ==> |r.value| == fabric.keysetCount
    {
      hide Logged, Represents, KeysetNext, KeysetTab, AsKeyset;
      ghost var good := Holds(v);
      if good { Lengths(m, idx, fabric, v); }
      var cur := fabric.firstKeyset;
      var entries: seq<(uint16, bytes)> := [];
      for j := 0 to fabric.keysetCount
        invariant |entries| == j
        invariant good && j < |v.keysets| ==> cur == v.keysets[j].id
        invariant good ==> forall k :: 0 <= k < j ==> entries[k].0 == v.keysets[k].id
        invariant forall k :: 0 <= k < j ==>
                    Blob(m, KeysetKey(idx, entries[k].0)) == Some(entries[k].1) && KeysetNext(entries[k].1).Some?
      {
        var key := KeysetKey(idx, cur);
        if good { KeysetLookup(m, idx, fabric, v, j); }
        var blob := Must(key);
        if blob.Err? { return Err(blob.error); }
        var next := KeysetNext(blob.value);
        if next.None? { return Err(Corrupt(key)); }
        entries := entries + [(cur, blob.value)];
        cur := next.value;
      }
      return Ok(entries);
    }

    // -------------------------------------------------------------- bindings

    /** Takes out the binding at `pos`: erases its record and redirects its predecessor. */
    method UnlinkKeymapAt(entries: seq<Found<Binding>>, pos: nat, ghost v: View)
      returns (left: seq<Found<Binding>>)
      requires pos < |entries| == fabric.mapCount
      modifies this
      ensures |left| == |entries| - 1 == fabric.mapCount
      ensures old(Holds(v) && Scanned(MapTab(m, idx), v.maps, entries)) ==>
                Holds(v.(maps := Without(v.maps, pos))) && Scanned(MapTab(m, idx), Without(v.maps, pos), left)
      ensures forall k: Key :: !(k.MapKey? && k.fab == idx) ==> Untouched(old(m), m, k)
      ensures fabric.next == old(fabric.next) && (old(Logged()) ==> Logged())
    {
      hide Logged, Represents, SerializeKeyMap, MapTab;
      var gone := entries[pos];
      left := entries;
      if Holds(v) && Scanned(MapTab(m, idx), v.maps, entries) {
        MapUnlinked(m, idx, fabric, v, pos);
        Lengths(m, idx, fabric, v);
        Distinct(m, idx, fabric, v);
        ScannedWithout(m, idx, v.maps, entries, pos);
      }
      Remove(MapKey(idx, gone.id));
      if pos == 0 {
        fabric := fabric.(firstMap := gone.node.next);
      } else {
        var prev := left[pos - 1];
        Set(MapKey(idx, prev.id), SerializeKeyMap(FromMap(prev.node.(next := gone.node.next))));
        left := left[pos - 1 := prev.(node := prev.node.(next := gone.node.next))];
      }
      fabric := fabric.(mapCount := fabric.mapCount - 1);
      left := left[..pos] + left[pos + 1..];
    }

    /** Takes out every binding `drop` selects, from the store and from `entries`; returns those taken out. */
    method UnlinkKeymaps(entries: seq<Found<Binding>>, drop: Binding -> bool, ghost v: View)
      returns (left: seq<Found<Binding>>, removed: seq<Binding>)
      requires |entries| == fabric.mapCount
      modifies this
      ensures |left| == fabric.mapCount
      ensures old(Holds(v) && Scanned(MapTab(m, idx), v.maps, entries)) ==>
                && Holds(v.(maps := Keep(v.maps, drop)))
                && Scanned(MapTab(m, idx), Keep(v.maps, drop), left)
                && removed == Dropped(v.maps, drop)
      ensures forall k: Key :: !(k.MapKey? && k.fab == idx) ==> Untouched(old(m), m, k)
      ensures fabric.next == old(fabric.next) && (old(Logged()) ==> Logged())
    {
      hide Logged, Represents, MapTab;
      left, removed := entries, [];
      ghost var good, rows := Holds(v) && Scanned(MapTab(m, idx), v.maps, entries), v.maps;
      var pos: nat := Position(left, drop);
      while pos < |left|
        invariant pos <= |left| == fabric.mapCount && (forall j :: 0 <= j < pos ==> !drop(left[j].node.val))
        invariant pos < |left| ==> drop(left[pos].node.val)
        invariant good ==> Holds(v.(maps := rows)) && Scanned(MapTab(m, idx), rows, left)
        invariant good ==> Keep(rows, drop) == Keep(v.maps, drop)
        invariant good ==> removed + Dropped(rows, drop) == Dropped(v.maps, drop)
        invariant forall k: Key :: !(k.MapKey? && k.fab == idx) ==> Untouched(old(m), m, k)
        invariant fabric.next == old(fabric.next) && (old(Logged()) ==> Logged())
        decreases |left|
      {
        if good {
          ScannedVals(m, idx, fabric, v.(maps := rows), left);
          KeepWithout(rows, drop, pos);
          DroppedWithout(rows, drop, pos);
        }
        removed := removed + [left[pos].node.val];
        left := UnlinkKeymapAt(left, pos, v.(maps := rows));
        if good { rows := Without(rows, pos); }
        pos := Position(left, drop);
      }
      if good {
        ScannedVals(m, idx, fabric, v.(maps := rows), left);
        NoneDropped(rows, drop);
      }
    }

    /** Adds a binding at the end of the list. */
    method AppendKeymap(entries: seq<Found<Binding>>, newId: uint16, b: Binding, ghost v: View)
      requires |entries| == fabric.mapCount
      modifies this
      ensures old(Holds(v) && Scanned(MapTab(m, idx), v.maps, entries))
              && |v.maps| < 0xFFFF && !HasId(v.maps, newId) ==>
                Holds(v.(maps := v.maps + [Row(newId, b)]))
      ensures forall k: Key :: !(k.MapKey? && k.fab == idx) ==> Untouched(old(m), m, k)
      ensures fabric.next == old(fabric.next) && (old(Logged()) ==> Logged())
    {
      hide Logged, Represents, MapTab, SerializeKeyMap;
      if Holds(v) && Scanned(MapTab(m, idx), v.maps, entries) && |v.maps| < 0xFFFF && !HasId(v.maps, newId) {
        AppendBinding(m, idx, fabric, v, newId, b, entries);
        Lengths(m, idx, fabric, v);
      }
      Set(MapKey(idx, newId), SerializeKeyMap(KeyMap(b.groupId, b.keysetId, 0)));
      if fabric.mapCount == 0 {
        fabric := fabric.(firstMap := newId);
      } else {
        var tail := entries[|entries| - 1];
        Set(MapKey(idx, tail.id), SerializeKeyMap(FromMap(tail.node.(next := newId))));
      }
      fabric := fabric.(mapCount := Succ16(fabric.mapCount));
    }

    /** Binds a group to a keyset under the next free id, after dropping the same binding if asked to. */
    method WriteKeymap(groupId: uint16, keysetId: uint16, rebind: bool, ghost v: View)
      returns (r: Result<(), GroupError>)
      modifies this
      ensures old(Holds(v)) && |v.maps| < 0xFFFF && MaxId(v.maps) < 0xFFFF ==>
                match Bind(v.maps, Binding(groupId, keysetId), rebind)
                case None => r == Err(DuplicateBind(groupId, keysetId))
                case Some(rows) => r.Ok? && Holds(v.(maps := rows))
      ensures forall k: Key :: !(k.MapKey? && k.fab == idx) ==> Untouched(old(m), m, k)
      ensures fabric.next == old(fabric.next) && (old(Logged()) ==> Logged())
    {
      hide Logged, Represents, MapTab, Scanned, Keep, Dropped, Bound;
      ghost var good := Holds(v) && |v.maps| < 0xFFFF && MaxId(v.maps) < 0xFFFF;
      var b := Binding(groupId, keysetId);
      var same := Same(b);
      var scanned := ScanMap(v);
      if scanned.Err? { return Err(scanned.error); }
      var entries := scanned.value;
      var maxId := LargestId(entries);
      if good { SameMax(MapTab(m, idx), v.maps, entries, maxId); }
      ghost var rows := v.maps;
      if rebind {
        var removed;
        entries, removed := UnlinkKeymaps(entries, same, v);
        rows := Keep(v.maps, same);
        if good { KeptIds(v.maps, same, maxId); }
      }
      var pos: nat := Position(entries, same);
      if good {
        ScannedVals(m, idx, fabric, v.(maps := rows), entries);
        NoneSelected(rows, b, pos);
        if rebind { NotBound(v.maps, b); }
      }
      if pos < |entries| { return Err(DuplicateBind(groupId, keysetId)); }
      if good { FreshId(rows, maxId); }
      AppendKeymap(entries, Succ16(maxId), b, v.(maps := rows));
      return Ok(());
    }

    /** Takes the keyset at `pos` out of the list: erases its record and relinks its predecessor. */
    method UnlinkKeysetAt(chain: seq<(uint16, bytes)>, pos: nat, ghost v: View) returns (r: Result<(), GroupError>)
      requires pos < |chain| == fabric.keysetCount && chain[pos].0 != 0
      requires forall k :: 0 <= k < |chain| ==>
                 Blob(m, KeysetKey(idx, chain[k].0)) == Some(chain[k].1) && KeysetNext(chain[k].1).Some?
      modifies this
      ensures old(Holds(v)) && |chain| == |v.keysets|
              && (forall k :: 0 <= k < |chain| ==> chain[k].0 == v.keysets[k].id) ==>
                r.Ok? && Holds(v.(keysets := Without(v.keysets, pos)))
      ensures forall k: Key :: !(k.KeysetKey? && k.fab == idx) ==> Untouched(old(m), m, k)
      ensures SlotZero(m, idx) == old(SlotZero(m, idx))
      ensures fabric.next == old(fabric.next) && (old(Logged()) ==> Logged())
    {
      hide Logged, Represents, KeysetTab, KeysetWithNext, KeysetNext, AsKeyset, Slot0;
      var next := KeysetNext(chain[pos].1).value;
      if Holds(v) && |chain| == |v.keysets| && forall k :: 0 <= k < |chain| ==> chain[k].0 == v.keysets[k].id {
        KeysetUnlinked(m, idx, fabric, v, pos);
        KeysetLookup(m, idx, fabric, v, pos);
      }
      Remove(KeysetKey(idx, chain[pos].0));
      if pos == 0 {
        fabric := fabric.(firstKeyset := next);
      } else {
        var prevKey := KeysetKey(idx, chain[pos - 1].0);
        var relinked := KeysetWithNext(chain[pos - 1].1, next);
        if relinked.None? { return Err(Corrupt(prevKey)); }
        Slot0Relinked(chain[pos - 1].1, next);
        Set(prevKey, relinked.value);
      }
      fabric := fabric.(keysetCount := fabric.keysetCount - 1);
      return Ok(());
    }

    /** Takes a keyset out of the list and erases it; keyset 0 is never touched. Tells whether it was there. */
    method UnlinkKeyset(ksid: uint16, ghost v: View) returns (r: Result<bool, GroupError>)
      modifies this
      ensures old(Holds(v)) ==>
                r == Ok(ksid != 0 && HasId(v.keysets, ksid))
                && Holds(v.(keysets := if ksid == 0 then v.keysets else KeepIds(v.keysets, {ksid})))
      ensures forall k: Key :: !(k.KeysetKey? && k.fab == idx) ==> Untouched(old(m), m, k)
      ensures SlotZero(m, idx) == old(SlotZero(m, idx))
      ensures fabric.next == old(fabric.next) && (old(Logged()) ==> Logged())
    {
      hide Logged, Represents, KeysetTab, KeysetNext, AsKeyset, Slot0;
      if ksid == 0 { return Ok(false); }
      var scanned := ScanKeysets(v);
      if scanned.Err? { return Err(scanned.error); }
      var chain := scanned.value;
      var pos: nat := 0;
      while pos < |chain| && chain[pos].0 != ksid
        invariant pos <= |chain| && forall j :: 0 <= j < pos ==> chain[j].0 != ksid
      {
        pos := pos + 1;
      }
      if Holds(v) {
        Distinct(m, idx, fabric, v);
        if pos == |chain| { KeepIdsNone(v.keysets, {ksid}); } else { WithoutIsKeepIds(v.keysets, pos); }
      }
      if pos == |chain| { return Ok(false); }
      var done := UnlinkKeysetAt(chain, pos, v);
      return if done.Err? then Err(done.error) else Ok(true);
    }

    // -------------------------------------------------------------- the list of fabrics

    /** Puts this fabric at the head of the list of fabrics unless it is on it. */
    method WriteFabricList(ghost fabs: seq<uint16>) returns (r: Result<(), GroupError>)
      modifies this
      ensures old(Lists(m, fabs) && SameLink(m, idx, fabric)) && ((idx as uint16) in fabs || |fabs| < 0xFFFF) ==>
                r.Ok? && Lists(m[FabricKey(idx) := Data(SerializeFabric(fabric))], Registered(fabs, idx))
      ensures forall k: Key :: k != ListKey ==> Untouched(old(m), m, k)
      ensures fabric == old(fabric).(next := fabric.next) && (old(Logged()) ==> Logged())
    {
      hide Logged, ParseFabricList, ParseFabricData, SerializeFabric, SerializeFabricList, FabricTab, Linked;
      ghost var good := Lists(m, fabs) && SameLink(m, idx, fabric) && ((idx as uint16) in fabs || |fabs| < 0xFFFF);
      var read := ReadCell(m, ListKey, Undecodable(ListKey));
      if read.Err? { return Err(read.error); }
      if read.value.None? {
        Set(ListKey, SerializeFabricList(FabricList(idx, 1)));
        if good { FirstFabric(old(m), idx, fabric); }
        return Ok(());
      }
      var list := ParseFabricList(read.value.value);
      if list.None? { return Err(Corrupt(ListKey)); }
      var l := list.value;
      var cur, found := l.firstEntry, false;
      if good { LinkedHead(FabricTab(m), l.firstEntry, fabs); }
      for j := 0 to l.entryCount
        invariant m == old(m) && fabric == old(fabric) && log == old(log) && !found
        invariant good && j < |fabs| ==> cur == fabs[j]
        invariant good ==> forall k :: 0 <= k < j ==> fabs[k] != idx
      {
        if cur == idx { found := true; break; }
        var key := FabricKey(cur);
        if good { FabricLookup(m, l.firstEntry, fabs, j); }
        var blob := Must(key);
        if blob.Err? { return Err(blob.error); }
        var fd := ParseFabricData(blob.value);
        if fd.None? { return Err(Corrupt(key)); }
        cur := fd.value.next;
      }
      if found {
        if good { StaysListed(m, l, fabs, idx, fabric); }
      } else {
        if good { NewlyListed(m, l, fabs, idx, fabric); }
        fabric := fabric.(next := l.firstEntry);
        Set(ListKey, SerializeFabricList(FabricList(idx, Succ16(l.entryCount))));
      }
      return Ok(());
    }

    // -------------------------------------------------------------- taking out a group

    /** Takes out the group at `pos`: erases its record and redirects its predecessor. */
    method UnlinkGroupAt(groups: seq<Found<GroupInfo>>, pos: nat, ghost v: View)
      requires pos < |groups| == fabric.groupCount
      modifies this
      ensures old(Holds(v) && Scanned(GroupTab(m, idx), v.groups, groups)) ==>
                Holds(v.(groups := Without(v.groups, pos)))
      ensures forall k: Key :: !(k.GroupKey? && k.fab == idx) ==> Untouched(old(m), m, k)
      ensures fabric.next == old(fabric.next) && (old(Logged()) ==> Logged())
    {
      hide Logged, Represents, SerializeGroup, GroupTab;
      var gone := groups[pos];
      if Holds(v) && Scanned(GroupTab(m, idx), v.groups, groups) {
        GroupUnlinked(m, idx, fabric, v, pos);
        Lengths(m, idx, fabric, v);
      }
      Remove(GroupKey(idx, gone.id));
      if pos == 0 {
        fabric := fabric.(firstGroup := gone.node.next);
      } else {
        var prev := groups[pos - 1];
        Set(GroupKey(idx, prev.id), SerializeGroup(FromGroup(prev.node.(next := gone.node.next))));
      }
      fabric := fabric.(groupCount := fabric.groupCount - 1);
    }

    /** Takes out the keysets that were bound by `removed` and are bound by none of `left`; tells whether any
        was there. */
    method UnlinkUnused(removed: seq<Binding>, left: seq<Found<Binding>>, ghost v: View)
      returns (r: Result<bool, GroupError>)
      modifies this
      ensures old(Holds(v) && Scanned(MapTab(m, idx), v.maps, left)) ==>
                r == Ok(exists k: nat :: k < |v.keysets| && v.keysets[k].id in Unused(removed, v.maps))
                && Holds(v.(keysets := KeepIds(v.keysets, Unused(removed, v.maps))))
      ensures forall k: Key :: !(k.KeysetKey? && k.fab == idx) ==> Untouched(old(m), m, k)
      ensures SlotZero(m, idx) == old(SlotZero(m, idx))
      ensures fabric.next == old(fabric.next) && (old(Logged()) ==> Logged())
    {
      hide Logged, Represents, MapTab, Slot0, KeepIds, SlotZero;
      ghost var good := Holds(v) && Scanned(MapTab(m, idx), v.maps, left);
      if good { ScannedVals(m, idx, fabric, v, left); }
      var any := false;
      var seen: set<uint16> := {};
      ghost var gone: set<uint16> := {};
      if good { KeepIdsNone(v.keysets, {}); }
      for j := 0 to |removed|
        invariant seen == KeysetIds(removed[..j])
        invariant good ==> gone == Unused(removed[..j], v.maps) && Holds(v.(keysets := KeepIds(v.keysets, gone)))
        invariant good ==> (any <==> exists k: nat :: k < |v.keysets| && v.keysets[k].id in gone)
        invariant forall k: Key :: !(k.KeysetKey? && k.fab == idx) ==> Untouched(old(m), m, k)
        invariant SlotZero(m, idx) == old(SlotZero(m, idx)) && fabric.next == old(fabric.next)
        invariant old(Logged()) ==> Logged()
      {
        var ksid := removed[j].keysetId;
        KeysetIdsSnoc(removed, j);
        if good { UnusedSnoc(removed, j, v.maps); }
        if ksid in seen { continue; }
        seen := seen + {ksid};
        var used := UsedBy(left, ksid);
        if good { SameUse(v.maps, left, ksid); }
        if used { continue; }
        var was := UnlinkKeyset(ksid, v.(keysets := KeepIds(v.keysets, gone)));
        if was.Err? { return Err(was.error); }
        if good && ksid != 0 {
          KeepIdsAgain(v.keysets, gone, {ksid});
          KeptHas(v.keysets, gone, ksid);
          gone := gone + {ksid};
        }
        any := any || was.value;
      }
      assert removed[..|removed|] == removed;
      return Ok(any);
    }
  }

  /** The first slot of the keyset with id 0, the identity protection key of the fabric. */
  function SlotZero(m: Store, i: uint8): Option<Entry> {
    match Blob(m, KeysetKey(i, 0)) case None => None case Some(b) => Slot0(b)
  }

  method LargestId(entries: seq<Found<Binding>>) returns (n: uint16)
    ensures forall k :: 0 <= k < |entries| ==> entries[k].id <= n
    ensures if entries == [] then n == 0 else exists k :: 0 <= k < |entries| && entries[k].id == n
  {
    n := 0;
    for j := 0 to |entries|
      invariant forall k :: 0 <= k < j ==> entries[k].id <= n
      invariant if j == 0 then n == 0 else exists k :: 0 <= k < j && entries[k].id == n
    {
      if j == 0 || entries[j].id > n { n := entries[j].id; }
    }
  }

  lemma SameMax(tab: Table<Binding>, rows: seq<Row<Binding>>, entries: seq<Found<Binding>>, n: uint16)
    requires Scanned(tab, rows, entries)
    requires forall k :: 0 <= k < |entries| ==> entries[k].id <= n
    requires if entries == [] then n == 0 else exists k :: 0 <= k < |entries| && entries[k].id == n
    ensures n == MaxId(rows)
  {
    if entries != [] {
      var k :| 0 <= k < |entries| && entries[k].id == n;
      assert rows[k].id == n;
      var j :| 0 <= j < |rows| && rows[j].id == MaxId(rows);
      assert entries[j].id == MaxId(rows);
    }
  }

  /** What is kept carries ids the list had before. */
  lemma {:induction false} KeptIds<T>(rows: seq<Row<T>>, drop: T -> bool, n: uint16)
    requires forall k :: 0 <= k < |rows| ==> rows[k].id <= n
    ensures |Keep(rows, drop)| <= |rows|
    ensures forall k :: 0 <= k < |Keep(rows, drop)| ==> Keep(rows, drop)[k].id <= n
  {
    if rows != [] { KeptIds(rows[..|rows| - 1], drop, n); }
  }

  lemma NotBound(rows: seq<Row<Binding>>, b: Binding)
    ensures !Bound(Keep(rows, Same(b)), b)
  {
    KeptRows(rows, Same(b));
  }

  lemma FreshId(rows: seq<Row<Binding>>, n: uint16)
    requires n < 0xFFFF && forall k :: 0 <= k < |rows| ==> rows[k].id <= n
    ensures !HasId(rows, n + 1)
  {
  }

  /** No row is the binding exactly when the search came to the end. */
  lemma NoneSelected(rows: seq<Row<Binding>>, b: Binding, pos: nat)
    requires pos <= |rows| && (forall j :: 0 <= j < pos ==> rows[j].val != b)
    requires pos < |rows| ==> rows[pos].val == b
    ensures pos < |rows| <==> Bound(rows, b)
  {
  }

  lemma AppendBinding(
    m: Store, i: uint8, f: FabricData, v: View, id: uint16, b: Binding, entries: seq<Found<Binding>>)
    requires Represents(m, i, f, v) && Scanned(MapTab(m, i), v.maps, entries)
    requires |v.maps| < 0xFFFF && !HasId(v.maps, id)
    ensures |entries| == f.mapCount
    ensures var m1 := m[MapKey(i, id) := Data(SerializeKeyMap(FromMap(Node(b, 0))))];
            Represents(
              if entries == [] then m1
              else
                var tail := entries[|entries| - 1];
                m1[MapKey(i, tail.id) := Data(SerializeKeyMap(FromMap(tail.node.(next := id))))],
              i, f.(mapCount := f.mapCount + 1, firstMap := if entries == [] then id else f.firstMap),
              v.(maps := v.maps + [Row(id, b)]))
  {
    hide GroupTab, MapTab, KeysetTab, SerializeKeyMap;
    MapAdded(m, i, f, v, id, b);
  }

  lemma ScannedVals(m: Store, i: uint8, f: FabricData, v: View, entries: seq<Found<Binding>>)
    requires Represents(m, i, f, v) && Scanned(MapTab(m, i), v.maps, entries)
    ensures |entries| == |v.maps| && forall k :: 0 <= k < |entries| ==> entries[k].node.val == v.maps[k].val
  {
    hide GroupTab, MapTab, KeysetTab;
  }

  lemma Distinct(m: Store, i: uint8, f: FabricData, v: View)
    requires Represents(m, i, f, v)
    ensures DistinctIds(v.groups) && DistinctIds(v.maps) && DistinctIds(v.keysets)
  {
    hide GroupTab, MapTab, KeysetTab;
  }

  /** The entries without one are the list without it, once its predecessor has been redirected. */
  lemma ScannedWithout(m: Store, i: uint8, rows: seq<Row<Binding>>, entries: seq<Found<Binding>>, k: nat)
    requires Scanned(MapTab(m, i), rows, entries) && DistinctIds(rows) && k < |rows|
    ensures var m1 := m - {MapKey(i, entries[k].id)};
            if k == 0 then Scanned(MapTab(m1, i), Without(rows, 0), entries[..0] + entries[1..])
            else
              var prev := entries[k - 1];
              var n := prev.node.(next := entries[k].node.next);
              Scanned(
                MapTab(m1[MapKey(i, prev.id) := Data(SerializeKeyMap(FromMap(n)))], i), Without(rows, k),
                entries[k - 1 := prev.(node := n)][..k] + entries[k - 1 := prev.(node := n)][k + 1..])
  {
    hide MapTab, SerializeKeyMap;
    var id := entries[k].id;
    var m1 := m - {MapKey(i, id)};
    MapErase(m, i, id);
    var w := Without(rows, k);
    if k == 0 {
      assert forall j :: 0 <= j < |w| ==> w[j] == rows[j + 1] && w[j].id != id;
    } else {
      var prev := entries[k - 1];
      var n := prev.node.(next := entries[k].node.next);
      MapWrite(m1, i, prev.id, n);
      var es := entries[k - 1 := prev.(node := n)];
      var left := es[..k] + es[k + 1..];
      forall j | 0 <= j < |w|
        ensures left[j].id == w[j].id && w[j].id != id
        ensures w[j].id != prev.id ==> left[j].node == MapTab(m, i)[w[j].id]
        ensures w[j].id == prev.id ==> left[j].node == n
      {
        var l := if j < k then j else j + 1;
        assert w[j] == rows[l] && left[j] == es[l];
      }
    }
  }

  lemma Lengths(m: Store, i: uint8, f: FabricData, v: View)
    requires Represents(m, i, f, v)
    ensures |v.groups| == f.groupCount && |v.maps| == f.mapCount && |v.keysets| == f.keysetCount
    ensures v.groups != [] ==> v.groups[0].id == f.firstGroup
    ensures v.maps != [] ==> v.maps[0].id == f.firstMap
    ensures v.keysets != [] ==> v.keysets[0].id == f.firstKeyset
  {
    hide GroupTab, MapTab, KeysetTab;
  }

  lemma FindAt<T>(rows: seq<Row<T>>, id: uint16, k: nat)
    requires k < |rows| && rows[k].id == id && forall j :: 0 <= j < k ==> rows[j].id != id
    ensures Find(rows, id) == k
  {
  }

  lemma FindNone<T>(rows: seq<Row<T>>, id: uint16)
    requires forall j :: 0 <= j < |rows| ==> rows[j].id != id
    ensures Find(rows, id) == |rows| && !HasId(rows, id)
  {
  }

  // ---------------------------------------------------------------- the list of fabrics

  /** Starting at `first`, the records lead through exactly `ids`. */
  ghost predicate Linked<T>(tab: Table<T>, first: uint16, ids: seq<uint16>) {
    && (forall j, k :: 0 <= j < k < |ids| ==> ids[j] != ids[k])
    && (forall k :: 0 <= k < |ids| ==> ids[k] in tab)
    && (ids != [] ==> ids[0] == first)
    && (forall k :: 0 <= k < |ids| - 1 ==> tab[ids[k]].next == ids[k + 1])
  }

  /** The store lists exactly these fabrics. */
  ghost predicate Lists(m: Store, fabs: seq<uint16>) {
    if ListKey !in m then fabs == []
    else
      && m[ListKey].Data? && ParseFabricList(m[ListKey].blob).Some?
      && var l := ParseFabricList(m[ListKey].blob).value;
         l.entryCount == |fabs| && Linked(FabricTab(m), l.firstEntry, fabs)
  }

  function Registered(fabs: seq<uint16>, i: uint16): seq<uint16> {
    if i in fabs then fabs else [i] + fabs
  }

  /** The fabric record being edited still has the stored link. */
  ghost predicate SameLink(m: Store, i: uint16, f: FabricData) {
    i in FabricTab(m) ==> FabricTab(m)[i].next == f.next
  }

  lemma LinkedHead<T>(tab: Table<T>, first: uint16, ids: seq<uint16>)
    requires Linked(tab, first, ids)
    ensures ids != [] ==> ids[0] == first
  {
  }

  lemma FabricLookup(m: Store, first: uint16, fabs: seq<uint16>, j: nat)
    requires Linked(FabricTab(m), first, fabs) && j < |fabs|
    ensures var b := Blob(m, FabricKey(fabs[j]));
            && b.Some? && ParseFabricData(b.value).Some?
            && fabs[j] in FabricTab(m) && ParseFabricData(b.value).value.next == FabricTab(m)[fabs[j]].next
            && (j < |fabs| - 1 ==> FabricTab(m)[fabs[j]].next == fabs[j + 1])
  {
    hide ParseFabricData;
  }

  lemma ListWrite(m: Store, l: FabricList)
    ensures ParseFabricList(SerializeFabricList(l)) == Some(l)
    ensures FabricTab(m[ListKey := Data(SerializeFabricList(l))]) == FabricTab(m)
  {
    FabricListRoundTrip(l);
    FabricsFrame(m, m[ListKey := Data(SerializeFabricList(l))]);
  }

  lemma FirstFabric(m: Store, i: uint8, f: FabricData)
    ensures var m1 := m[ListKey := Data(SerializeFabricList(FabricList(i, 1)))];
            Lists(m1[FabricKey(i) := Data(SerializeFabric(f))], Registered([], i))
  {
    hide ParseFabricList, SerializeFabricList, SerializeFabric, FabricTab, Elsewhere;
    assert Registered([], i) == [i];
    ListWrite(m, FabricList(i, 1));
    FabricWrite(m[ListKey := Data(SerializeFabricList(FabricList(i, 1)))], i, i, f);
  }

  lemma StaysListed(m: Store, l: FabricList, fabs: seq<uint16>, i: uint8, f: FabricData)
    requires ListKey in m && m[ListKey].Data? && ParseFabricList(m[ListKey].blob) == Some(l)
    requires Lists(m, fabs) && (i as uint16) in fabs && SameLink(m, i, f)
    ensures Lists(m[FabricKey(i) := Data(SerializeFabric(f))], fabs)
  {
    hide ParseFabricList, SerializeFabric, FabricTab, Elsewhere;
    FabricWrite(m, i, i, f);
  }

  lemma NewlyListed(m: Store, l: FabricList, fabs: seq<uint16>, i: uint8, f: FabricData)
    requires ListKey in m && m[ListKey].Data? && ParseFabricList(m[ListKey].blob) == Some(l)
    requires Lists(m, fabs) && (i as uint16) !in fabs && |fabs| < 0xFFFF
    ensures var m1 := m[ListKey := Data(SerializeFabricList(FabricList(i, l.entryCount + 1)))];
            Lists(m1[FabricKey(i) := Data(SerializeFabric(f.(next := l.firstEntry)))], [i as uint16] + fabs)
  {
    hide ParseFabricList, SerializeFabricList, SerializeFabric, FabricTab, Elsewhere;
    var l' := FabricList(i, l.entryCount + 1);
    var m1 := m[ListKey := Data(SerializeFabricList(l'))];
    ListWrite(m, l');
    var f' := f.(next := l.firstEntry);
    FabricWrite(m1, i, i, f');
    var m2 := m1[FabricKey(i) := Data(SerializeFabric(f'))];
    var ids := [i as uint16] + fabs;
    assert Linked(FabricTab(m2), i, ids) by {
      assert forall k :: 0 < k < |ids| ==> ids[k] == fabs[k - 1];
    }
  }

  // ---------------------------------------------------------------- keysets that lose their last binding

  function KeysetIds(bs: seq<Binding>): set<uint16> { set b | b in bs :: b.keysetId }

  /** The keysets the removed bindings named and no remaining binding names, keyset 0 apart. */
  function Unused(removed: seq<Binding>, left: seq<Row<Binding>>): set<uint16> {
    set k | k in KeysetIds(removed) && k != 0 && !BindsKeyset(left, k)
  }

  predicate BindsKeyset(rows: seq<Row<Binding>>, ksid: uint16) {
    exists k :: 0 <= k < |rows| && rows[k].val.keysetId == ksid
  }

  method UsedBy(entries: seq<Found<Binding>>, ksid: uint16) returns (used: bool)
    ensures used <==> exists k :: 0 <= k < |entries| && entries[k].node.val.keysetId == ksid
  {
    used := false;
    for j := 0 to |entries|
      invariant used <==> exists k :: 0 <= k < j && entries[k].node.val.keysetId == ksid
    {
      if entries[j].node.val.keysetId == ksid { used := true; }
    }
  }

  lemma SameUse(rows: seq<Row<Binding>>, entries: seq<Found<Binding>>, ksid: uint16)
    requires |entries| == |rows| && forall k :: 0 <= k < |entries| ==> entries[k].node.val == rows[k].val
    ensures BindsKeyset(rows, ksid) <==> exists k :: 0 <= k < |entries| && entries[k].node.val.keysetId == ksid
  {
  }

  lemma KeysetIdsSnoc(bs: seq<Binding>, j: nat)
    requires j < |bs|
    ensures KeysetIds(bs[..j + 1]) == KeysetIds(bs[..j]) + {bs[j].keysetId}
  {
    assert bs[..j + 1] == bs[..j] + [bs[j]];
  }

  lemma UnusedSnoc(bs: seq<Binding>, j: nat, left: seq<Row<Binding>>)
    requires j < |bs|
    ensures var k := bs[j].keysetId;
            Unused(bs[..j + 1], left)
            == Unused(bs[..j], left) + (if k != 0 && !BindsKeyset(left, k) then {k} else {})
  {
    hide BindsKeyset;
    KeysetIdsSnoc(bs, j);
  }

  lemma {:induction false} KeptHas<T>(rows: seq<Row<T>>, gone: set<uint16>, id: uint16)
    ensures HasId(KeepIds(rows, gone), id) <==> HasId(rows, id) && id !in gone
  {
    if rows != [] {
      var front, last := rows[..|rows| - 1], rows[|rows| - 1];
      KeptHas(front, gone, id);
      HasSnoc(front, last, id);
      assert front + [last] == rows;
      HasSnoc(KeepIds(front, gone), last, id);
      assert KeepIds(front, gone) + [] == KeepIds(front, gone);
    }
  }

  lemma HasSnoc<T>(rows: seq<Row<T>>, r: Row<T>, id: uint16)
    ensures HasId(rows + [r], id) <==> HasId(rows, id) || r.id == id
  {
    var s := rows + [r];
    assert forall k :: 0 <= k < |rows| ==> s[k] == rows[k];
    assert s[|rows|] == r;
  }
}
