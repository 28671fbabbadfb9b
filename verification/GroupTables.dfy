/** What provisioning and removing a group mean for the table of one fabric
    (crates/mat-controller/src/group_settings.rs). */
module GroupTables {
  import opened Wrappers
  import opened Records
  import opened KeysetRecord
  import opened Chains
  import opened GroupStore
  import opened GroupView
  import opened GroupEditor

  datatype ProvisionWrite = ProvisionWrite(
    groupId: uint16, keysetId: uint16, name: Name, epochKey: Key16, rebind: bool)

  function Link(w: ProvisionWrite): Binding { Binding(w.groupId, w.keysetId) }

  function EmptyView(): View { View([], [], []) }

  /** Room for one more entry in each list that grows. */
  ghost predicate HasRoom(v: View, w: ProvisionWrite) {
    && (HasId(v.groups, w.groupId) || |v.groups| < 0xFFFF)
    && (HasId(v.keysets, w.keysetId) || |v.keysets| < 0xFFFF)
    && |v.maps| < 0xFFFF && MaxId(v.maps) < 0xFFFF
  }

  /** Provisioning fabric `i`: the group is renamed or added last, the keyset is rewritten or added first, the
      binding is added last. */
  function Provision(v: View, i: uint8, w: ProvisionWrite, s: Slot): Result<View, GroupError>
    requires MaxId(v.maps) < 0xFFFF
  {
    match PutKeyset(v.keysets, w.keysetId, s)
    case None => Err(Corrupt(KeysetKey(i, w.keysetId)))
    case Some(keysets) =>
      match Bind(v.maps, Link(w), w.rebind)
      case None => Err(DuplicateBind(w.groupId, w.keysetId))
      case Some(maps) => Ok(View(PutGroup(v.groups, w.groupId, TruncateName(w.name)), maps, keysets))
  }

  function OfGroup(gid: uint16): Binding -> bool { (b: Binding) => b.groupId == gid }

  /** Removing a group: it goes with all its bindings and the keysets only these bindings named. */
  function Remove(v: View, gid: uint16): Result<View, GroupError> {
    var k := Find(v.groups, gid);
    if k == |v.groups| then Err(NotFound(gid))
    else
      var maps := Keep(v.maps, OfGroup(gid));
      Ok(View(Without(v.groups, k), maps,
              KeepIds(v.keysets, Unused(Dropped(v.maps, OfGroup(gid)), maps))))
  }

  // ---------------------------------------------------------------- well-formed tables

  /** Distinct ids, and every binding names a group and a keyset of the table. */
  ghost predicate WellFormed(v: View) {
    && DistinctIds(v.groups) && DistinctIds(v.maps) && DistinctIds(v.keysets)
    && forall k :: 0 <= k < |v.maps| ==>
         HasId(v.groups, v.maps[k].val.groupId) && HasId(v.keysets, v.maps[k].val.keysetId)
  }

  lemma PutGroupIds(rows: seq<Row<GroupInfo>>, gid: uint16, name: Name)
    requires DistinctIds(rows)
    ensures DistinctIds(PutGroup(rows, gid, name))
    ensures forall id: uint16 :: HasId(PutGroup(rows, gid, name), id) <==> HasId(rows, id) || id == gid
  {
    var r := PutGroup(rows, gid, name);
    FindHas(rows, gid);
    var k := Find(rows, gid);
    forall id: uint16
      ensures HasId(r, id) <==> HasId(rows, id) || id == gid
    {
      if k < |rows| { SameIds(rows, r, id); } else { HasSnoc(rows, r[|rows|], id); }
    }
  }

  lemma SameIds<T>(a: seq<Row<T>>, b: seq<Row<T>>, id: uint16)
    requires |a| == |b| && forall k :: 0 <= k < |a| ==> a[k].id == b[k].id
    ensures HasId(a, id) <==> HasId(b, id)
  {
  }

  lemma HasCons<T>(r: Row<T>, rows: seq<Row<T>>, id: uint16)
    ensures HasId([r] + rows, id) <==> r.id == id || HasId(rows, id)
  {
    var s := [r] + rows;
    assert s[0] == r && forall k :: 0 <= k < |rows| ==> s[k + 1] == rows[k];
  }

  lemma PutKeysetIds(rows: seq<Row<Keyset>>, ksid: uint16, s: Slot)
    requires DistinctIds(rows) && PutKeyset(rows, ksid, s).Some?
    ensures var r := PutKeyset(rows, ksid, s).value;
            DistinctIds(r) && forall id: uint16 :: HasId(r, id) <==> HasId(rows, id) || id == ksid
  {
    hide SetSlot0, NewKeyset;
    var r := PutKeyset(rows, ksid, s).value;
    FindHas(rows, ksid);
    var k := Find(rows, ksid);
    forall id: uint16
      ensures HasId(r, id) <==> HasId(rows, id) || id == ksid
    {
      if k < |rows| { SameIds(rows, r, id); } else { HasCons(r[0], rows, id); }
    }
    if k == |rows| {
      assert forall j :: 0 < j < |r| ==> r[j] == rows[j - 1];
    }
  }

  lemma {:induction false} KeepDistinct<T>(rows: seq<Row<T>>, drop: T -> bool)
    requires DistinctIds(rows)
    ensures DistinctIds(Keep(rows, drop))
  {
    if rows != [] {
      var front := rows[..|rows| - 1];
      KeepDistinct(front, drop);
      KeptRows(front, drop);
    }
  }

  lemma {:induction false} KeepIdsDistinct<T>(rows: seq<Row<T>>, gone: set<uint16>)
    requires DistinctIds(rows)
    ensures DistinctIds(KeepIds(rows, gone))
  {
    if rows != [] {
      var front, last := rows[..|rows| - 1], rows[|rows| - 1];
      KeepIdsDistinct(front, gone);
      KeptHas(front, gone, last.id);
      var kept := KeepIds(front, gone);
      assert !HasId(front, last.id) by { assert forall j :: 0 <= j < |front| ==> front[j] == rows[j]; }
      assert forall j :: 0 <= j < |kept| ==> kept[j].id != last.id;
      assert KeepIds(rows, gone) == kept || KeepIds(rows, gone) == kept + [last];
    }
  }

  lemma ProvisionKeepsWellFormed(v: View, i: uint8, w: ProvisionWrite, s: Slot)
    requires WellFormed(v) && MaxId(v.maps) < 0xFFFF && Provision(v, i, w, s).Ok?
    ensures WellFormed(Provision(v, i, w, s).value)
  {
    hide PutGroup, PutKeyset, Keep, TruncateName;
    var r := Provision(v, i, w, s).value;
    PutGroupIds(v.groups, w.groupId, TruncateName(w.name));
    PutKeysetIds(v.keysets, w.keysetId, s);
    KeepDistinct(v.maps, Same(Link(w)));
    KeptRows(v.maps, Same(Link(w)));
    KeptIds(v.maps, Same(Link(w)), MaxId(v.maps));
    forall k | 0 <= k < |r.maps|
      ensures HasId(r.groups, r.maps[k].val.groupId) && HasId(r.keysets, r.maps[k].val.keysetId)
    {
      if k < |r.maps| - 1 {
        assert exists j :: 0 <= j < |v.maps| && v.maps[j] == r.maps[k];
      }
    }
  }

  /** Which bindings a group has, by row. */
  predicate Mentions(rows: seq<Row<Binding>>, gid: uint16) {
    exists k :: 0 <= k < |rows| && rows[k].val.groupId == gid
  }

  lemma {:induction false} DroppedNames(rows: seq<Row<Binding>>, gid: uint16, ksid: uint16)
    ensures ksid in KeysetIds(Dropped(rows, OfGroup(gid)))
            <==> exists k :: 0 <= k < |rows| && rows[k].val == Binding(gid, ksid)
  {
    if rows != [] {
      var n := |rows| - 1;
      var front := rows[..n];
      DroppedNames(front, gid, ksid);
      var d := Dropped(front, OfGroup(gid));
      assert forall k :: 0 <= k < n ==> front[k] == rows[k];
      if rows[n].val.groupId == gid {
        assert Dropped(rows, OfGroup(gid)) == d + [rows[n].val];
        assert KeysetIds(d + [rows[n].val]) == KeysetIds(d) + {rows[n].val.keysetId};
      } else {
        assert Dropped(rows, OfGroup(gid)) == d;
      }
    }
  }

  predicate BoundByOther(rows: seq<Row<Binding>>, gid: uint16, ksid: uint16) {
    exists k :: 0 <= k < |rows| && rows[k].val.keysetId == ksid && rows[k].val.groupId != gid
  }

  lemma OtherSnoc(rows: seq<Row<Binding>>, r: Row<Binding>, gid: uint16, ksid: uint16)
    ensures BoundByOther(rows + [r], gid, ksid)
            <==> BoundByOther(rows, gid, ksid) || (r.val.keysetId == ksid && r.val.groupId != gid)
  {
    var s := rows + [r];
    assert s[|rows|] == r && forall k :: 0 <= k < |rows| ==> s[k] == rows[k];
  }

  lemma {:induction false} KeptNames(rows: seq<Row<Binding>>, gid: uint16, ksid: uint16)
    ensures BindsKeyset(Keep(rows, OfGroup(gid)), ksid) <==> BoundByOther(rows, gid, ksid)
  {
    if rows != [] {
      var front, last := rows[..|rows| - 1], rows[|rows| - 1];
      KeptNames(front, gid, ksid);
      BindsSnoc(Keep(front, OfGroup(gid)), last, ksid);
      OtherSnoc(front, last, gid, ksid);
      hide BindsKeyset, BoundByOther;
      assert front + [last] == rows;
      assert Keep(front, OfGroup(gid)) + [] == Keep(front, OfGroup(gid));
    }
  }

  lemma BindsSnoc(rows: seq<Row<Binding>>, r: Row<Binding>, ksid: uint16)
    ensures BindsKeyset(rows + [r], ksid) <==> BindsKeyset(rows, ksid) || r.val.keysetId == ksid
  {
    var s := rows + [r];
    assert s[|rows|] == r && forall k :: 0 <= k < |rows| ==> s[k] == rows[k];
  }

  /** A keyset goes exactly when it is not keyset 0, the group is bound to it, and no other group is. */
  predicate LosesLast(v: View, gid: uint16, ksid: uint16) {
    ksid != 0
    && (exists k :: 0 <= k < |v.maps| && v.maps[k].val == Binding(gid, ksid))
    && !BoundByOther(v.maps, gid, ksid)
  }

  /** What is left after a removal, entry by entry. The lists keep their order: they are the old ones with
      some entries left out. */
  lemma RemoveMeaning(v: View, gid: uint16)
    requires DistinctIds(v.groups)
    ensures Remove(v, gid).Ok? <==> HasId(v.groups, gid)
    ensures Remove(v, gid).Ok? ==>
              var r := Remove(v, gid).value;
              && r.groups == KeepIds(v.groups, {gid})
              && r.maps == Keep(v.maps, OfGroup(gid))
              && (forall id: uint16 :: HasId(r.groups, id) <==> HasId(v.groups, id) && id != gid)
              && (forall id: uint16 :: HasId(r.keysets, id) <==> HasId(v.keysets, id) && !LosesLast(v, gid, id))
  {
    FindHas(v.groups, gid);
    if HasId(v.groups, gid) {
      hide Keep, Dropped, KeepIds, HasId;
      WithoutIsKeepIds(v.groups, Find(v.groups, gid));
      var r := Remove(v, gid).value;
      var gone := Unused(Dropped(v.maps, OfGroup(gid)), r.maps);
      forall id: uint16
        ensures HasId(r.groups, id) <==> HasId(v.groups, id) && id != gid
        ensures HasId(r.keysets, id) <==> HasId(v.keysets, id) && !LosesLast(v, gid, id)
      {
        KeptHas(v.groups, {gid}, id);
        KeptHas(v.keysets, gone, id);
        DroppedNames(v.maps, gid, id);
        KeptNames(v.maps, gid, id);
      }
    }
  }

  lemma RemoveKeepsWellFormed(v: View, gid: uint16)
    requires WellFormed(v) && Remove(v, gid).Ok?
    ensures WellFormed(Remove(v, gid).value)
    ensures !Mentions(Remove(v, gid).value.maps, gid)
  {
    hide Keep, Dropped, KeepIds, HasId;
    var r := Remove(v, gid).value;
    RemoveMeaning(v, gid);
    KeepIdsDistinct(v.groups, {gid});
    KeepIdsDistinct(v.keysets, Unused(Dropped(v.maps, OfGroup(gid)), r.maps));
    KeepDistinct(v.maps, OfGroup(gid));
    KeptRows(v.maps, OfGroup(gid));
    forall k | 0 <= k < |r.maps|
      ensures r.maps[k].val.groupId != gid
      ensures HasId(r.groups, r.maps[k].val.groupId) && HasId(r.keysets, r.maps[k].val.keysetId)
    {
      var j :| 0 <= j < |v.maps| && v.maps[j] == r.maps[k] && !OfGroup(gid)(v.maps[j].val);
      assert !LosesLast(v, gid, v.maps[j].val.keysetId);
    }
  }

  // ---------------------------------------------------------------- removal undoes provisioning

  /** When removing the group just provisioned gives back the table as it was. */
  ghost predicate Undoable(v: View, w: ProvisionWrite, s: Slot) {
    var k := Find(v.keysets, w.keysetId);
    && !HasId(v.groups, w.groupId) && !Mentions(v.maps, w.groupId)
    && if k == |v.keysets| then !BindsKeyset(v.maps, w.keysetId)
       else BindsKeyset(v.maps, w.keysetId) && HoldsSlot(v.keysets[k].val, s)
  }

  lemma {:induction false} KeepOther(rows: seq<Row<Binding>>, b: Binding)
    ensures Keep(Keep(rows, Same(b)), OfGroup(b.groupId)) == Keep(rows, OfGroup(b.groupId))
  {
    if rows != [] {
      var front, last := rows[..|rows| - 1], rows[|rows| - 1];
      KeepOther(front, b);
      var f := Keep(front, Same(b));
      if last.val == b {
        assert Keep(rows, Same(b)) == f;
      } else {
        assert Keep(rows, Same(b))[..|f|] == f;
      }
    }
  }

  lemma {:induction false} KeepAll(rows: seq<Row<Binding>>, gid: uint16)
    ensures |Keep(rows, OfGroup(gid))| <= |rows|
    ensures Keep(rows, OfGroup(gid)) == rows <==> !Mentions(rows, gid)
  {
    if rows != [] {
      var front, last := rows[..|rows| - 1], rows[|rows| - 1];
      KeepAll(front, gid);
      assert rows == front + [last];
      assert forall k :: 0 <= k < |front| ==> front[k] == rows[k];
      if last.val.groupId != gid {
        assert (Keep(front, OfGroup(gid)) + [last])[..|Keep(front, OfGroup(gid))|] == Keep(front, OfGroup(gid));
      }
    }
  }

  /** The bindings after provisioning and removing are the old ones without those of the group. */
  lemma MapsAfterBoth(v: View, i: uint8, w: ProvisionWrite, s: Slot)
    requires MaxId(v.maps) < 0xFFFF && Provision(v, i, w, s).Ok?
    ensures var p := Provision(v, i, w, s).value;
            Keep(p.maps, OfGroup(w.groupId)) == Keep(v.maps, OfGroup(w.groupId))
  {
    hide PutGroup, PutKeyset, TruncateName;
    var p := Provision(v, i, w, s).value;
    KeepOther(v.maps, Link(w));
    assert p.maps[..|p.maps| - 1] == if w.rebind then Keep(v.maps, Same(Link(w))) else v.maps;
  }

  /** Keysets that go when the freshly provisioned group of an unmentioned id goes: its own one at most. */
  lemma GoneAfterBoth(v: View, i: uint8, w: ProvisionWrite, s: Slot)
    requires MaxId(v.maps) < 0xFFFF && Provision(v, i, w, s).Ok? && w.keysetId != 0
    requires !Mentions(v.maps, w.groupId)
    ensures var p := Provision(v, i, w, s).value;
            Unused(Dropped(p.maps, OfGroup(w.groupId)), v.maps)
            == if BindsKeyset(v.maps, w.keysetId) then {} else {w.keysetId}
  {
    hide PutGroup, PutKeyset, TruncateName, BindsKeyset;
    var p := Provision(v, i, w, s).value;
    var rest := p.maps[..|p.maps| - 1];
    assert rest == v.maps by {
      NotMentioned(v.maps, w.groupId, Link(w));
      assert w.rebind ==> rest == Keep(v.maps, Same(Link(w)));
    }
    NoneDropped(v.maps, OfGroup(w.groupId));
    assert Dropped(p.maps, OfGroup(w.groupId)) == [] + [Link(w)] == [Link(w)];
    assert KeysetIds([Link(w)]) == {w.keysetId};
  }

  lemma NotMentioned(rows: seq<Row<Binding>>, gid: uint16, b: Binding)
    requires !Mentions(rows, gid) && b.groupId == gid
    ensures Keep(rows, Same(b)) == rows
    ensures forall j :: 0 <= j < |rows| ==> !OfGroup(gid)(rows[j].val)
  {
    NoneDropped(rows, Same(b));
  }

  lemma HeadGone(r: Row<Keyset>, rows: seq<Row<Keyset>>)
    requires !HasId(rows, r.id)
    ensures KeepIds([r] + rows, {r.id}) == rows
  {
    KeepIdsNone(rows, {r.id});
    KeepIdsHead(r, rows, {r.id});
  }

  lemma {:induction false} KeepIdsHead<T>(r: Row<T>, rows: seq<Row<T>>, gone: set<uint16>)
    ensures KeepIds([r] + rows, gone) == (if r.id in gone then [] else [r]) + KeepIds(rows, gone)
  {
    if rows == [] {
      assert [r] + rows == [r] && [r][..0] == [];
    } else {
      var n := |rows| - 1;
      KeepIdsHead(r, rows[..n], gone);
      assert ([r] + rows)[..n + 1] == [r] + rows[..n];
      assert ([r] + rows)[n + 1] == rows[n];
    }
  }

  /** The keysets after provisioning and removing are the old ones exactly when the keyset was new and unbound,
      or was bound by another group and its first slot already held what is written. */
  lemma KeysetsAfterBoth(rows: seq<Row<Keyset>>, ksid: uint16, s: Slot, bound: bool)
    requires DistinctIds(rows) && PutKeyset(rows, ksid, s).Some?
    ensures var k := Find(rows, ksid);
            KeepIds(PutKeyset(rows, ksid, s).value, if bound then {} else {ksid}) == rows
            <==> if k == |rows| then !bound else bound && HoldsSlot(rows[k].val, s)
  {
    hide SetSlot0, NewKeyset, HoldsSlot;
    var k := Find(rows, ksid);
    if k < |rows| { SetSlot0Same(rows[k].val, s); }
    FindHas(rows, ksid);
    var p := PutKeyset(rows, ksid, s).value;
    if bound {
      KeepIdsNone(p, {});
      if k < |rows| { assert p[k].val == SetSlot0(rows[k].val, s).value; }
    } else if k == |rows| {
      HeadGone(p[0], rows);
    } else {
      KeptHas(p, {ksid}, ksid);
      assert rows[k].id == ksid;
    }
  }

  /** Provisioning a group and removing it gives the table back if and only if the group id was new and
      unmentioned, and the keyset either was new and unbound, or was bound and its first slot already held what is written. */
  lemma RemoveUndoesProvision(v: View, i: uint8, w: ProvisionWrite, s: Slot)
    requires DistinctIds(v.groups) && DistinctIds(v.keysets)
    requires w.keysetId != 0 && MaxId(v.maps) < 0xFFFF && Provision(v, i, w, s).Ok?
    ensures Remove(Provision(v, i, w, s).value, w.groupId) == Ok(v) <==> Undoable(v, w, s)
  {
    hide PutGroup, PutKeyset, TruncateName, Keep, KeepIds, Dropped, Unused, HoldsSlot, Bind, Without;
    var p := Provision(v, i, w, s).value;
    var gid := w.groupId;
    GroupsAfterBoth(v, i, w, s);
    var q := Remove(p, gid).value;
    MapsAfterBoth(v, i, w, s);
    KeepAll(v.maps, gid);
    if !Mentions(v.maps, gid) {
      GoneAfterBoth(v, i, w, s);
      KeysetsAfterBoth(v.keysets, w.keysetId, s, BindsKeyset(v.maps, w.keysetId));
    }
  }

  lemma GroupsAfterBoth(v: View, i: uint8, w: ProvisionWrite, s: Slot)
    requires DistinctIds(v.groups) && MaxId(v.maps) < 0xFFFF && Provision(v, i, w, s).Ok?
    ensures var p := Provision(v, i, w, s).value;
            && Find(p.groups, w.groupId) < |p.groups|
            && (Without(p.groups, Find(p.groups, w.groupId)) == v.groups <==> !HasId(v.groups, w.groupId))
  {
    hide TruncateName, PutKeyset, Bind;
    var p := Provision(v, i, w, s).value;
    var k := Find(v.groups, w.groupId);
    FindHas(v.groups, w.groupId);
    PutGroupIds(v.groups, w.groupId, TruncateName(w.name));
    FindHas(p.groups, w.groupId);
    if k == |v.groups| {
      FindAt(p.groups, w.groupId, k);
    } else {
      assert |Without(p.groups, Find(p.groups, w.groupId))| == |v.groups| - 1;
    }
  }

  /** A table with one group bound to one keyset. */
  function OneGroup(gid: uint16, name: Name, ksid: uint16, s: Slot): View {
    View([Row(gid, GroupInfo(name, INVALID_ENDPOINT_ID, 0))], [Row(1, Binding(gid, ksid))],
         [Row(ksid, NewKeyset(0, s, 0))])
  }

  lemma OneGroupIsWellFormed(gid: uint16, name: Name, ksid: uint16, s: Slot)
    ensures WellFormed(OneGroup(gid, name, ksid, s)) && MaxId(OneGroup(gid, name, ksid, s).maps) == 1
  {
    hide NewKeyset;
    var v := OneGroup(gid, name, ksid, s);
    assert v.groups[0].id == gid && v.keysets[0].id == ksid && v.maps[..0] == [];
  }

  /** Provisioning the only group of a table with a second keyset goes through. */
  lemma SecondKeyset(i: uint8, w: ProvisionWrite, ksid: uint16, s: Slot)
    requires ksid != w.keysetId
    ensures var v := OneGroup(w.groupId, w.name, ksid, s);
            && WellFormed(v) && MaxId(v.maps) == 1 && Provision(v, i, w, s).Ok?
            && Provision(v, i, w, s).value.maps == [Row(1, Binding(w.groupId, ksid)), Row(2, Link(w))]
  {
    hide NewKeyset, TruncateName;
    OneGroupIsWellFormed(w.groupId, w.name, ksid, s);
    var v := OneGroup(w.groupId, w.name, ksid, s);
    assert v.maps[..0] == [] && v.maps[0].val != Link(w);
    FindNone(v.keysets, w.keysetId);
    assert Keep(v.maps, Same(Link(w))) == [] + v.maps;
  }

  /** A provisioning that its removal does not undo: the group was there before, and is gone afterwards. */
  lemma RemoveTakesMore(i: uint8, w: ProvisionWrite, ksid: uint16, s: Slot)
    requires ksid != w.keysetId && w.keysetId != 0
    ensures var v := OneGroup(w.groupId, w.name, ksid, s);
            && WellFormed(v) && MaxId(v.maps) < 0xFFFF && Provision(v, i, w, s).Ok? && !Undoable(v, w, s)
            && Remove(Provision(v, i, w, s).value, w.groupId) != Ok(v)
  {
    hide Provision, Remove, NewKeyset;
    var v := OneGroup(w.groupId, w.name, ksid, s);
    SecondKeyset(i, w, ksid, s);
    RemoveUndoesProvision(v, i, w, s);
    assert v.groups[0].id == w.groupId;
  }

  /** Provisioning the same thing again without rebinding is refused. */
  lemma ProvisionTwice(v: View, i: uint8, w: ProvisionWrite, s: Slot)
    requires MaxId(v.maps) < 0xFFFF && Provision(v, i, w, s).Ok?
    requires MaxId(Provision(v, i, w, s).value.maps) < 0xFFFF
    requires PutKeyset(Provision(v, i, w, s).value.keysets, w.keysetId, s).Some?
    ensures Provision(Provision(v, i, w, s).value, i, w.(rebind := false), s)
            == Err(DuplicateBind(w.groupId, w.keysetId))
  {
    hide PutKeyset, PutGroup, TruncateName;
    var p := Provision(v, i, w, s).value;
    assert p.maps[|p.maps| - 1].val == Link(w);
  }

  // ---------------------------------------------------------------- whole runs

  datatype TableOp = ProvisionOp(w: ProvisionWrite, s: Slot) | RemoveOp(gid: uint16)

  /** One operation on the table; an operation that fails leaves it alone. */
  ghost predicate TableStep(v: View, i: uint8, op: TableOp, v': View) {
    match op
    case ProvisionOp(w, s) =>
      HasRoom(v, w) && v' == (match Provision(v, i, w, s) case Ok(r) => r case Err(_) => v)
    case RemoveOp(gid) => v' == match Remove(v, gid) case Ok(r) => r case Err(_) => v
  }

  ghost predicate TableRun(vs: seq<View>, i: uint8, ops: seq<TableOp>) {
    |vs| == |ops| + 1 && forall k :: 0 <= k < |ops| ==> TableStep(vs[k], i, ops[k], vs[k + 1])
  }

  /** No run of operations ever produces a duplicate id or a binding that leads nowhere. */
  lemma {:induction false} RunsKeepWellFormed(vs: seq<View>, i: uint8, ops: seq<TableOp>, n: nat)
    requires TableRun(vs, i, ops) && WellFormed(vs[0]) && n <= |ops|
    ensures WellFormed(vs[n])
  {
    hide WellFormed, Provision, Remove, HasRoom;
    if n > 0 {
      RunsKeepWellFormed(vs, i, ops, n - 1);
      assert TableStep(vs[n - 1], i, ops[n - 1], vs[n]);
      RoomForId(vs[n - 1], i, ops[n - 1], vs[n]);
      match ops[n - 1]
      case ProvisionOp(w, s) => if Provision(vs[n - 1], i, w, s).Ok? { ProvisionKeepsWellFormed(vs[n - 1], i, w, s); }
      case RemoveOp(gid) => if Remove(vs[n - 1], gid).Ok? { RemoveKeepsWellFormed(vs[n - 1], gid); }
    }
  }

  lemma RoomForId(v: View, i: uint8, op: TableOp, v': View)
    requires TableStep(v, i, op, v')
    ensures op.ProvisionOp? ==> MaxId(v.maps) < 0xFFFF
  {
    hide Provision, Remove;
  }
}
