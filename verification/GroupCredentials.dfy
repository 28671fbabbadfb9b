/** Reading the keys to send to a group with, and what provisioning makes of them
    (crates/mat-controller/src/kvs.rs, crates/mat-controller/src/group_settings.rs). */
module GroupCredentials {
  import opened Wrappers
  import opened Records
  import opened KeysetRecord
  import opened KeysetReader
  import opened Chains
  import opened GroupStore
  import opened GroupView
  import opened GroupEditor
  import opened GroupTables
  import opened GroupSettings

  datatype Credentials = Credentials(sessionId: uint16, key: Key16)

  datatype ReadError = GroupNotFound | KeyMissing(key: Key) | BadKeyset | BadValue(key: Key)

  /** The first key of a stored keyset; sending needs its hash. */
  function KeysetCredentials(m: Store, i: uint8, ksid: uint16): Result<Credentials, ReadError> {
    match ReadCell(m, KeysetKey(i, ksid), BadValue(KeysetKey(i, ksid)))
    case Err(e) => Err(e)
    case Ok(None) => Err(KeyMissing(KeysetKey(i, ksid)))
    case Ok(Some(b)) =>
      match KeysetFirstEntry(b)
      case None => Err(BadKeyset)
      case Some(e) => if e.hash.None? then Err(BadKeyset) else Ok(Credentials(e.hash.value, e.key))
  }

  /** The keyset of the first binding of a group. */
  function FirstKeysetOf(rows: seq<Row<Binding>>, gid: uint16): Option<uint16> {
    if rows == [] then None
    else if rows[0].val.groupId == gid then Some(rows[0].val.keysetId)
    else FirstKeysetOf(rows[1..], gid)
  }

  /** The credentials of a group in a store that holds the table `v`. */
  function GroupCredentialsOf(m: Store, i: uint8, v: View, gid: uint16): Result<Credentials, ReadError> {
    match FirstKeysetOf(v.maps, gid)
    case None => Err(GroupNotFound)
    case Some(ksid) => KeysetCredentials(m, i, ksid)
  }

  lemma {:induction false} FirstKeysetAt(rows: seq<Row<Binding>>, gid: uint16, k: nat)
    requires k <= |rows| && forall j :: 0 <= j < k ==> rows[j].val.groupId != gid
    requires k < |rows| ==> rows[k].val.groupId == gid
    ensures FirstKeysetOf(rows, gid) == if k < |rows| then Some(rows[k].val.keysetId) else None
  {
    if k > 0 { FirstKeysetAt(rows[1..], gid, k - 1); }
  }

  /** The keys to send to a group with. A record of the binding list that is missing or malformed ends the walk. */
  method ReadGroupCredentials(m: Store, i: uint8, gid: uint16, ghost v: View)
    returns (r: Result<Credentials, ReadError>)
    ensures OnDisk(m, i, v) ==> r == GroupCredentialsOf(m, i, v, gid)
  {
    hide Represents, ParseFabricData, ParseKeyMap, MapTab, KeysetFirstEntry, FirstKeysetOf;
    ghost var good := OnDisk(m, i, v);
    var ksid: Option<uint16> := None;
    var record := ReadCell(m, FabricKey(i), BadValue(FabricKey(i)));
    if record.Err? { return Err(record.error); }
    ghost var stop: nat := |v.maps|;
    if record.value.Some? && ParseFabricData(record.value.value).Some? {
      var fabric := ParseFabricData(record.value.value).value;
      if good { Lengths(m, i, fabric, v); }
      var cur := fabric.firstMap;
      for j := 0 to fabric.mapCount
        invariant good && j < |v.maps| ==> cur == v.maps[j].id
        invariant good ==> forall l :: 0 <= l < j ==> v.maps[l].val.groupId != gid
        invariant ksid.None? && stop == |v.maps|
      {
        if good { MapLookup(m, i, fabric, v, j); }
        var blob := ReadCell(m, MapKey(i, cur), BadValue(MapKey(i, cur)));
        if blob.Err? { return Err(blob.error); }
        if blob.value.None? { break; }
        var km := ParseKeyMap(blob.value.value);
        if km.None? { break; }
        if km.value.groupId == gid {
          ksid := Some(km.value.keysetId);
          if good { stop := j; }
          break;
        }
        cur := km.value.next;
      }
    }
    if good { FirstKeysetAt(v.maps, gid, stop); }
    if ksid.None? { return Err(GroupNotFound); }
    var blob := ReadCell(m, KeysetKey(i, ksid.value), BadValue(KeysetKey(i, ksid.value)));
    if blob.Err? { return Err(blob.error); }
    if blob.value.None? { return Err(KeyMissing(KeysetKey(i, ksid.value))); }
    var entry := KeysetFirstEntry(blob.value.value);
    if entry.None? || entry.value.hash.None? { return Err(BadKeyset); }
    return Ok(Credentials(entry.value.hash.value, entry.value.key));
  }

  // ---------------------------------------------------------------- after provisioning

  /** What a record read from a list of keysets yields as first key. */
  lemma EntryOfRow(m: Store, i: uint8, v: View, k: nat)
    requires OnDisk(m, i, v) && k < |v.keysets|
    ensures KeysetCredentials(m, i, v.keysets[k].id)
            == match FirstEntry(v.keysets[k].val)
               case None => Err(BadKeyset)
               case Some(e) => if e.hash.None? then Err(BadKeyset) else Ok(Credentials(e.hash.value, e.key))
  {
    hide Represents, ParseFabricData, KeysetTab, Fields, ScanRecord, SetNext, NextOf;
    var f := ParseFabricData(m[FabricKey(i)].blob).value;
    KeysetLookup(m, i, f, v, k);
    var b := Blob(m, KeysetKey(i, v.keysets[k].id)).value;
    ScanAfterRelink(Fields(b).value, 0);
  }

  lemma NewKeysetEntry(s: Slot)
    ensures FirstEntry(NewKeyset(0, s, 0)) == Some(Entry(s.key, Some(s.hash)))
  {
    var ts := NewKeyset(0, s, 0);
    var e := Entry(s.key, Some(s.hash));
    NewSlotYields(s);
    hide SlotEntry, SlotTree, ScanRecord;
    assert IsKeys(ts[2]) && Editable(ts[2]);
    ScanWithOneKeys(ts, 2, e);
    var a, b := ts[..3], ts[..3][..2];
    assert CountOf(b) == Some(1) && CountOf(a) == CountOf(b) && CountOf(ts) == CountOf(a);
  }

  lemma NewSlotYields(s: Slot)
    ensures IsStruct(SlotTree(s)) && SlotEntry(SlotTree(s).kids) == Some(Entry(s.key, Some(s.hash)))
  {
    hide ScanSlot;
    var kids := SlotTree(s).kids;
    ScanUniform(kids, s);
    assert IsUint(kids[1], HASH) && IsBytes(kids[2], KEY);
  }

  /** The keyset just written yields the slot it was given: always when it is new, and when it was there with
      one key array, exactly if its record says that it has a key. */
  lemma WrittenKeysetYields(m: Store, i: uint8, v: View, p: View, ksid: uint16, s: Slot)
    requires PutKeyset(v.keysets, ksid, s) == Some(p.keysets) && OnDisk(m, i, p)
    ensures var k := Find(v.keysets, ksid);
            && (k == |v.keysets| ==> KeysetCredentials(m, i, ksid) == Ok(Credentials(s.hash, s.key)))
            && (k < |v.keysets| && OneKeys(v.keysets[k].val) ==>
                  KeysetCredentials(m, i, ksid)
                  == var n := CountOf(v.keysets[k].val);
                     if n.Some? && n.value >= 1 then Ok(Credentials(s.hash, s.key)) else Err(BadKeyset))
  {
    hide OnDisk, KeysetCredentials, FirstEntry, SetSlot0, NewKeyset, OneKeys;
    var k := Find(v.keysets, ksid);
    if k == |v.keysets| {
      assert p.keysets[0] == Row(ksid, NewKeyset(0, s, 0));
      EntryOfRow(m, i, p, 0);
      NewKeysetEntry(s);
    } else {
      assert p.keysets[k].id == ksid;
      EntryOfRow(m, i, p, k);
      if OneKeys(v.keysets[k].val) { FirstEntryOfEdit(v.keysets[k].val, s); }
    }
  }

  /** The group is bound to another keyset as well. */
  predicate BoundToOther(rows: seq<Row<Binding>>, gid: uint16, ksid: uint16) {
    exists k :: 0 <= k < |rows| && rows[k].val.groupId == gid && rows[k].val.keysetId != ksid
  }

  /** The new binding is the one consulted exactly when the group has no binding to another keyset: bindings are
      added at the end and the first one counts. */
  lemma NewBindingConsulted(v: View, i: uint8, w: ProvisionWrite, s: Slot)
    requires MaxId(v.maps) < 0xFFFF && Provision(v, i, w, s).Ok?
    ensures FirstKeysetOf(Provision(v, i, w, s).value.maps, w.groupId) == Some(w.keysetId)
            <==> !BoundToOther(v.maps, w.groupId, w.keysetId)
  {
    hide PutGroup, PutKeyset, TruncateName;
    var rows := Provision(v, i, w, s).value.maps;
    var n := |rows| - 1;
    assert rows[n].val == Link(w);
    var rest := rows[..n];
    assert rest == if w.rebind then Keep(v.maps, Same(Link(w))) else v.maps;
    OthersSurvive(v.maps, w.groupId, w.keysetId);
    NotBound(v.maps, Link(w));
    var k := FirstOf(rows, w.groupId);
    FirstKeysetAt(rows, w.groupId, k);
    if k < n {
      assert rest[k] == rows[k] && !Bound(rest, Link(w));
    } else {
      assert forall j :: 0 <= j < n ==> rest[j] == rows[j];
    }
  }

  /** A provisioning that goes through without taking effect on sending: the older keyset is still the one consulted. */
  lemma OlderBindingWins(i: uint8, w: ProvisionWrite, ksid: uint16, s: Slot)
    requires ksid != w.keysetId
    ensures var v := OneGroup(w.groupId, w.name, ksid, s);
            && WellFormed(v) && MaxId(v.maps) < 0xFFFF && Provision(v, i, w, s).Ok?
            && FirstKeysetOf(Provision(v, i, w, s).value.maps, w.groupId) == Some(ksid)
  {
    hide Provision, WellFormed, OneGroup;
    SecondKeyset(i, w, ksid, s);
  }

  /** Position of the first binding of a group, the length of the list when there is none. */
  function FirstOf(rows: seq<Row<Binding>>, gid: uint16): (k: nat)
    ensures k <= |rows| && (k < |rows| ==> rows[k].val.groupId == gid)
    ensures forall j :: 0 <= j < k ==> rows[j].val.groupId != gid
  {
    if rows == [] then 0 else if rows[0].val.groupId == gid then 0 else 1 + FirstOf(rows[1..], gid)
  }

  lemma {:induction false} OthersSurvive(rows: seq<Row<Binding>>, gid: uint16, ksid: uint16)
    ensures BoundToOther(Keep(rows, Same(Binding(gid, ksid))), gid, ksid) <==> BoundToOther(rows, gid, ksid)
  {
    if rows != [] {
      var front, last := rows[..|rows| - 1], rows[|rows| - 1];
      var b := Binding(gid, ksid);
      OthersSurvive(front, gid, ksid);
      ToOtherSnoc(front, last, gid, ksid);
      ToOtherSnoc(Keep(front, Same(b)), last, gid, ksid);
      hide BoundToOther;
      assert front + [last] == rows && Keep(front, Same(b)) + [] == Keep(front, Same(b));
    }
  }

  lemma ToOtherSnoc(rows: seq<Row<Binding>>, r: Row<Binding>, gid: uint16, ksid: uint16)
    ensures BoundToOther(rows + [r], gid, ksid)
            <==> BoundToOther(rows, gid, ksid) || (r.val.groupId == gid && r.val.keysetId != ksid)
  {
    var s := rows + [r];
    assert s[|rows|] == r && forall k :: 0 <= k < |rows| ==> s[k] == rows[k];
  }

  /** In a store that holds the provisioned table, the group's credentials are the derived key and its hash when
      the group has no binding to another keyset and the keyset was new or had one key array and counts a key. */
  lemma ProvisionedCredentials(m: Store, i: uint8, v: View, w: ProvisionWrite, c: Crypto, cfid: bytes)
    requires MaxId(v.maps) < 0xFFFF && Provision(v, i, w, SlotOf(c, w.epochKey, cfid)).Ok?
    requires OnDisk(m, i, Provision(v, i, w, SlotOf(c, w.epochKey, cfid)).value)
    requires !BoundToOther(v.maps, w.groupId, w.keysetId)
    requires var k := Find(v.keysets, w.keysetId);
             k < |v.keysets| ==> OneKeys(v.keysets[k].val)
                                 && CountOf(v.keysets[k].val).Some? && CountOf(v.keysets[k].val).value >= 1
    ensures var key := c.derive(w.epochKey, cfid);
            GroupCredentialsOf(m, i, Provision(v, i, w, SlotOf(c, w.epochKey, cfid)).value, w.groupId)
            == Ok(Credentials(c.sessionId(key), key))
  {
    hide OnDisk, Provision, KeysetCredentials, FirstKeysetOf, BoundToOther, OneKeys, CountOf, PutKeyset, Find;
    var s := SlotOf(c, w.epochKey, cfid);
    NewBindingConsulted(v, i, w, s);
    ProvisionedKeysets(v, i, w, s);
    WrittenKeysetYields(m, i, v, Provision(v, i, w, s).value, w.keysetId, s);
  }

  lemma ProvisionedKeysets(v: View, i: uint8, w: ProvisionWrite, s: Slot)
    requires MaxId(v.maps) < 0xFFFF && Provision(v, i, w, s).Ok?
    ensures PutKeyset(v.keysets, w.keysetId, s) == Some(Provision(v, i, w, s).value.keysets)
  {
    hide PutGroup, PutKeyset, TruncateName, Bind;
  }
}
