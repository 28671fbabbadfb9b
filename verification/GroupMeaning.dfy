/** What provisioning and removing a group do to the rows of a fabric's table, row by row
    (crates/mat-controller/src/group_settings.rs). */
module GroupMeaning {
  import opened Wrappers
  import opened TlvCodec
  import opened TlvTrees
  import opened Records
  import opened KeysetRecord
  import opened Chains
  import opened GroupStore
  import opened GroupView
  import opened GroupEditor
  import opened GroupTables

  // ---------------------------------------------------------------- rows kept in order

  /** `r` are the elements of `all` at the positions `at`, which rise. */
  ghost predicate Picks<T>(all: seq<T>, at: seq<nat>, r: seq<T>) {
    && |at| == |r| && (forall k :: 0 <= k < |at| ==> at[k] < |all| && r[k] == all[at[k]])
    && forall j, k :: 0 <= j < k < |at| ==> at[j] < at[k]
  }

  lemma {:induction false} KeepPicks<T>(rows: seq<Row<T>>, drop: T -> bool) returns (at: seq<nat>)
    ensures Picks(rows, at, Keep(rows, drop))
    ensures forall i: nat :: i < |rows| ==> (i in at <==> !drop(rows[i].val))
  {
    hide Picks;
    at := [];
    if rows == [] {
      NonePicked<Row<T>>();
    } else {
      var n := |rows| - 1;
      var front := KeepPicks(rows[..n], drop);
      at := PicksMore(rows, front, Keep(rows[..n], drop), !drop(rows[n].val));
      assert forall i: nat :: i < n ==> rows[..n][i] == rows[i];
    }
  }

  lemma {:induction false} KeepIdsPicks<T>(rows: seq<Row<T>>, gone: set<uint16>) returns (at: seq<nat>)
    ensures Picks(rows, at, KeepIds(rows, gone))
    ensures forall i: nat :: i < |rows| ==> (i in at <==> rows[i].id !in gone)
  {
    hide Picks;
    at := [];
    if rows == [] {
      NonePicked<Row<T>>();
    } else {
      var n := |rows| - 1;
      var front := KeepIdsPicks(rows[..n], gone);
      at := PicksMore(rows, front, KeepIds(rows[..n], gone), rows[n].id !in gone);
      assert forall i: nat :: i < n ==> rows[..n][i] == rows[i];
    }
  }

  lemma NonePicked<T>()
    ensures Picks<T>([], [], [])
  {
  }

  /** The last element of a list is picked or not. */
  lemma PicksMore<T>(all: seq<T>, front: seq<nat>, r: seq<T>, last: bool) returns (at: seq<nat>)
    requires all != [] && Picks(all[..|all| - 1], front, r)
    ensures Picks(all, at, r + if last then [all[|all| - 1]] else [])
    ensures forall i: nat :: i < |all| - 1 ==> (i in at <==> i in front)
    ensures |all| - 1 in at <==> last
  {
    at := if last then front + [|all| - 1] else front;
    assert forall k :: 0 <= k < |front| ==> all[..|all| - 1][front[k]] == all[front[k]];
    assert r + [] == r;
  }

  // ---------------------------------------------------------------- groups

  /** `short` is the longest prefix of whole characters of `name` within 16 bytes. */
  ghost predicate Shortened(short: Name, name: Name) {
    && short <= name && |short| <= 16
    && (short == name || |short| + CharLen(name[|short|..]) > 16)
  }

  lemma TruncatedIsShortened(name: Name)
    ensures Shortened(TruncateName(name), name)
  {
    CutIsLongest(name, 16);
  }

  /** The group carries the shortened name; a known one keeps its place and its endpoints, a new one is the last and
      has none yet. All others stay. */
  ghost predicate GroupPut(before: seq<Row<GroupInfo>>, after: seq<Row<GroupInfo>>, gid: uint16, name: Name) {
    && |after| == |before| + (if HasId(before, gid) then 0 else 1)
    && (forall k :: 0 <= k < |before| ==>
          && after[k].id == before[k].id && (before[k].id != gid ==> after[k].val == before[k].val)
          && after[k].val.firstEndpoint == before[k].val.firstEndpoint
          && after[k].val.endpointCount == before[k].val.endpointCount)
    && (!HasId(before, gid) ==>
          && after[|before|].id == gid
          && after[|before|].val.firstEndpoint == 0xFFFF && after[|before|].val.endpointCount == 0)
    && forall k :: 0 <= k < |after| && after[k].id == gid ==> Shortened(after[k].val.name, name)
  }

  lemma PutGroupPuts(rows: seq<Row<GroupInfo>>, gid: uint16, name: Name)
    requires DistinctIds(rows)
    ensures GroupPut(rows, PutGroup(rows, gid, TruncateName(name)), gid, name)
  {
    hide TruncateName, Shortened;
    TruncatedIsShortened(name);
    FindHas(rows, gid);
    if HasId(rows, gid) { assert forall j :: 0 <= j < |rows| && j != Find(rows, gid) ==> rows[j].id != gid; }
  }

  // ---------------------------------------------------------------- bindings

  /** The last row binds `b` under the id after the largest one; before it stand the old rows but those of `b`. */
  ghost predicate BindingPut(before: seq<Row<Binding>>, after: seq<Row<Binding>>, b: Binding, at: seq<nat>) {
    && after != []
    && Picks(before, at, after[..|after| - 1])
    && (forall i: nat :: i < |before| ==> (i in at <==> before[i].val != b))
    && after[|after| - 1].val == b
    && (forall k :: 0 <= k < |before| ==> before[k].id < after[|after| - 1].id)
    && if before == [] then after[|after| - 1].id == 1
       else exists k :: 0 <= k < |before| && before[k].id + 1 == after[|after| - 1].id
  }

  lemma BindPuts(rows: seq<Row<Binding>>, b: Binding, rebind: bool) returns (at: seq<nat>)
    requires MaxId(rows) < 0xFFFF && Bind(rows, b, rebind).Some?
    ensures BindingPut(rows, Bind(rows, b, rebind).value, b, at)
  {
    hide Bind, Picks, Keep, MaxId, Same;
    at := KeepOthers(rows, b);
    BindFront(rows, b, rebind);
    NextId(rows);
  }

  lemma KeepOthers(rows: seq<Row<Binding>>, b: Binding) returns (at: seq<nat>)
    ensures Picks(rows, at, Keep(rows, Same(b)))
    ensures forall i: nat :: i < |rows| ==> (i in at <==> rows[i].val != b)
  {
    hide Picks, Keep;
    at := KeepPicks(rows, Same(b));
  }

  lemma BindRefused(rows: seq<Row<Binding>>, b: Binding, rebind: bool)
    requires MaxId(rows) < 0xFFFF
    ensures Bind(rows, b, rebind).None? <==> !rebind && exists k :: 0 <= k < |rows| && rows[k].val == b
  {
    hide Keep, MaxId;
  }

  lemma BindFront(rows: seq<Row<Binding>>, b: Binding, rebind: bool)
    requires MaxId(rows) < 0xFFFF && Bind(rows, b, rebind).Some?
    ensures var r := Bind(rows, b, rebind).value;
            r != [] && r[..|r| - 1] == Keep(rows, Same(b)) && r[|r| - 1] == Row(MaxId(rows) + 1, b)
  {
    if !rebind { NoneDropped(rows, Same(b)); }
    hide Keep, MaxId;
  }

  lemma NextId(rows: seq<Row<Binding>>)
    ensures forall k :: 0 <= k < |rows| ==> rows[k].id < MaxId(rows) + 1
    ensures if rows == [] then MaxId(rows) == 0 else exists k :: 0 <= k < |rows| && rows[k].id + 1 == MaxId(rows) + 1
  {
    if rows != [] {
      assert HasId(rows, MaxId(rows));
      hide MaxId;
      var k :| 0 <= k < |rows| && rows[k].id == MaxId(rows);
      assert rows[k].id + 1 == MaxId(rows) + 1;
    }
  }

  // ---------------------------------------------------------------- keysets

  /** One key, counted once, in the first of three slots, and no policy: the record of a new keyset. */
  ghost predicate NewRecord(ts: seq<Tree>, s: Slot) {
    && |ts| == 4
    && ts[0] == Leaf(Context(1), Uint(0)) && ts[1] == Leaf(Context(2), Uint(1)) && ts[3] == Leaf(Context(7), Uint(0))
    && ts[2].Branch? && ts[2].tag == Context(3) && ts[2].start == ArrayStart && |ts[2].kids| == 3
    && (forall j :: 0 <= j < 3 ==>
          ts[2].kids[j].Branch? && ts[2].kids[j].tag == Anonymous && ts[2].kids[j].start == StructStart)
    && ts[2].kids[0].kids
       == [Leaf(Context(4), Uint(s.startTime)), Leaf(Context(5), Uint(s.hash)), Leaf(Context(6), Bytes(s.key))]
    && forall j :: 1 <= j < 3 ==>
         && |ts[2].kids[j].kids| == 3
         && ts[2].kids[j].kids[0] == Leaf(Context(4), Uint(0)) && ts[2].kids[j].kids[1] == Leaf(Context(5), Uint(0))
         && ts[2].kids[j].kids[2].Leaf? && ts[2].kids[j].kids[2].tag == Context(6)
         && ts[2].kids[j].kids[2].value.Bytes? && |ts[2].kids[j].kids[2].value.data| == 16
         && forall b :: b in ts[2].kids[j].kids[2].value.data ==> b == 0
  }

  lemma NewKeysetIsNewRecord(s: Slot)
    ensures NewRecord(NewKeyset(0, s, 0), s)
  {
  }

  /** The element is a start time, a hash or a key. */
  predicate OfSlot(t: Tree) { IsUint(t, Context(4)) || IsUint(t, Context(5)) || IsBytes(t, Context(6)) }

  /** The fields of a slot after the edit: start time, hash and key are the written ones, wherever they stand and
      whether or not they were there; every other field is in its place; and only missing ones were added, once. */
  ghost predicate SlotPut(f: seq<Tree>, g: seq<Tree>, s: Slot) {
    && SlotIs(g, s) && |f| <= |g|
    && (forall j :: 0 <= j < |f| ==>
          && (!OfSlot(f[j]) ==> g[j] == f[j])
          && (IsUint(f[j], Context(4)) ==> IsUint(g[j], Context(4)))
          && (IsUint(f[j], Context(5)) ==> IsUint(g[j], Context(5)))
          && (IsBytes(f[j], Context(6)) ==> IsBytes(g[j], Context(6))))
    && (forall j :: |f| <= j < |g| ==> OfSlot(g[j]))
    && forall i, j :: 0 <= i < j < |g| && |f| <= j ==>
         !(IsUint(g[i], Context(4)) && IsUint(g[j], Context(4))) && !(IsUint(g[i], Context(5)) && IsUint(g[j], Context(5)))
         && !(IsBytes(g[i], Context(6)) && IsBytes(g[j], Context(6)))
  }

  /** A record with its first key array at `k`, before and after: only the first slot of the array differs. */
  ghost predicate RecordPut(ts: seq<Tree>, r: seq<Tree>, s: Slot, k: nat) {
    && k < |ts| == |r|
    && (forall j :: 0 <= j < k ==> !IsKeys(ts[j])) && IsKeys(ts[k]) && IsKeys(r[k])
    && (forall j :: 0 <= j < |ts| && j != k ==> r[j] == ts[j])
    && |r[k].kids| == |ts[k].kids| > 0
    && (forall j :: 1 <= j < |ts[k].kids| ==> r[k].kids[j] == ts[k].kids[j])
    && IsStruct(ts[k].kids[0]) && IsStruct(r[k].kids[0]) && r[k].kids[0].tag == Anonymous
    && SlotPut(ts[k].kids[0].kids, r[k].kids[0].kids, s)
  }

  lemma EditSlotFits(f: seq<Tree>, s: Slot)
    ensures var g := EditSlot(f, s);
            && |g| == |f| + |Missing(f, s)|
            && (forall j :: 0 <= j < |g| ==> Fits(g[j], s)) && (forall j :: |f| <= j < |g| ==> OfSlot(g[j]))
            && (forall j :: 0 <= j < |f| ==> g[j] == ReplaceOne(f[j], s))
            && forall j :: |f| <= j < |g| ==> g[j] == Missing(f, s)[j - |f|]
  {
    hide AnyUint, AnyBytes;
    var g := EditSlot(f, s);
    var a, m := Replace(f, s), Missing(f, s);
    assert forall j :: 0 <= j < |f| ==> g[j] == a[j] == ReplaceOne(f[j], s);
    assert forall j :: |f| <= j < |g| ==> g[j] == m[j - |f|];
  }

  lemma EditSlotPuts(f: seq<Tree>, s: Slot)
    ensures SlotPut(f, EditSlot(f, s), s)
  {
    EditedSlotIsComplete(f, s);
    EditSlotFits(f, s);
    hide Missing, EditSlot, Fits, OfSlot, AnyUint, AnyBytes;
    var g := EditSlot(f, s);
    forall i, j | 0 <= i < j < |g| && |f| <= j
      ensures !(IsUint(g[i], Context(4)) && IsUint(g[j], Context(4)))
      ensures !(IsUint(g[i], Context(5)) && IsUint(g[j], Context(5)))
      ensures !(IsBytes(g[i], Context(6)) && IsBytes(g[j], Context(6)))
    {
      assert g[j] == Missing(f, s)[j - |f|];
      MissingOnce(f, s, j - |f|);
      if i < |f| { ReplacedKind(f[i], s); } else { MissingTwice(f, s, i - |f|, j - |f|); }
    }
    forall j | 0 <= j < |f|
      ensures !OfSlot(f[j]) ==> g[j] == f[j]
      ensures IsUint(f[j], Context(4)) ==> IsUint(g[j], Context(4))
      ensures IsUint(f[j], Context(5)) ==> IsUint(g[j], Context(5))
      ensures IsBytes(f[j], Context(6)) ==> IsBytes(g[j], Context(6))
    {
      ReplacedKind(f[j], s);
    }
  }

  lemma ReplacedKind(t: Tree, s: Slot)
    ensures var r := ReplaceOne(t, s);
            && (!OfSlot(t) ==> r == t)
            && (IsUint(t, Context(4)) <==> IsUint(r, Context(4))) && (IsUint(t, Context(5)) <==> IsUint(r, Context(5)))
            && (IsBytes(t, Context(6)) <==> IsBytes(r, Context(6)))
  {
  }

  lemma MissingOnce(f: seq<Tree>, s: Slot, j: nat)
    requires j < |Missing(f, s)|
    ensures IsUint(Missing(f, s)[j], Context(4)) ==> forall i :: 0 <= i < |f| ==> !IsUint(f[i], Context(4))
    ensures IsUint(Missing(f, s)[j], Context(5)) ==> forall i :: 0 <= i < |f| ==> !IsUint(f[i], Context(5))
    ensures IsBytes(Missing(f, s)[j], Context(6)) ==> forall i :: 0 <= i < |f| ==> !IsBytes(f[i], Context(6))
  {
  }

  lemma MissingTwice(f: seq<Tree>, s: Slot, i: nat, j: nat)
    requires i < j < |Missing(f, s)|
    ensures !(IsUint(Missing(f, s)[i], Context(4)) && IsUint(Missing(f, s)[j], Context(4)))
    ensures !(IsUint(Missing(f, s)[i], Context(5)) && IsUint(Missing(f, s)[j], Context(5)))
    ensures !(IsBytes(Missing(f, s)[i], Context(6)) && IsBytes(Missing(f, s)[j], Context(6)))
  {
  }

  /** The first key array of the record is missing, empty, or does not start with a struct. */
  ghost predicate NoSlot(ts: seq<Tree>) {
    || (forall j :: 0 <= j < |ts| ==> !IsKeys(ts[j]))
    || exists k :: 0 <= k < |ts| && IsKeys(ts[k]) && (forall j :: 0 <= j < k ==> !IsKeys(ts[j]))
                   && (ts[k].kids == [] || !IsStruct(ts[k].kids[0]))
  }

  lemma SetSlot0Puts(ts: seq<Tree>, s: Slot)
    ensures SetSlot0(ts, s).None? <==> NoSlot(ts)
    ensures SetSlot0(ts, s).Some? ==> exists k :: RecordPut(ts, SetSlot0(ts, s).value, s, k)
  {
    hide EditSlot, RecordPut;
    NoSlotAt(ts, KeysAt(ts));
    if SetSlot0(ts, s).Some? { EditPuts(ts, s); }
  }

  lemma NoSlotAt(ts: seq<Tree>, k: nat)
    requires k <= |ts| && (k < |ts| ==> IsKeys(ts[k])) && forall j :: 0 <= j < k ==> !IsKeys(ts[j])
    ensures NoSlot(ts) <==> k == |ts| || !Editable(ts[k])
  {
    hide IsKeys, IsStruct;
  }

  lemma EditPuts(ts: seq<Tree>, s: Slot)
    requires SetSlot0(ts, s).Some?
    ensures RecordPut(ts, SetSlot0(ts, s).value, s, KeysAt(ts))
  {
    var k := KeysAt(ts);
    hide EditSlot, SlotPut, KeysAt;
    EditSlotPuts(ts[k].kids[0].kids, s);
  }

  /** A new keyset stands first; a known one changed in its first slot alone. All others stay. */
  ghost predicate KeysetPut(before: seq<Row<Keyset>>, after: seq<Row<Keyset>>, ksid: uint16, s: Slot) {
    if !HasId(before, ksid) then
      |after| == |before| + 1 && after[0].id == ksid && NewRecord(after[0].val, s) && after[1..] == before
    else
      && |after| == |before|
      && forall k :: 0 <= k < |before| ==>
           && after[k].id == before[k].id && (before[k].id != ksid ==> after[k].val == before[k].val)
           && (before[k].id == ksid ==> exists at :: RecordPut(before[k].val, after[k].val, s, at))
  }

  lemma PutKeysetPuts(rows: seq<Row<Keyset>>, ksid: uint16, s: Slot)
    requires DistinctIds(rows)
    ensures PutKeyset(rows, ksid, s).None? <==> exists k :: 0 <= k < |rows| && rows[k].id == ksid && NoSlot(rows[k].val)
    ensures PutKeyset(rows, ksid, s).Some? ==> KeysetPut(rows, PutKeyset(rows, ksid, s).value, ksid, s)
  {
    hide NewKeyset, SetSlot0, NewRecord, NoSlot, RecordPut;
    var k := Find(rows, ksid);
    FindHas(rows, ksid);
    if k < |rows| {
      SetSlot0Puts(rows[k].val, s);
      assert forall j :: 0 <= j < |rows| && j != k ==> rows[j].id != ksid;
    } else {
      NewKeysetIsNewRecord(s);
    }
  }

  // ---------------------------------------------------------------- the two operations

  /** What a provisioning leaves, row by row, and exactly when it is refused. */
  lemma ProvisionMeaning(v: View, i: uint8, w: ProvisionWrite, s: Slot) returns (at: seq<nat>)
    requires DistinctIds(v.groups) && DistinctIds(v.keysets) && MaxId(v.maps) < 0xFFFF
    ensures var corrupt := exists k :: 0 <= k < |v.keysets| && v.keysets[k].id == w.keysetId && NoSlot(v.keysets[k].val);
            var bound := exists k :: 0 <= k < |v.maps| && v.maps[k].val == Binding(w.groupId, w.keysetId);
            && (Provision(v, i, w, s) == Err(Corrupt(KeysetKey(i, w.keysetId))) <==> corrupt)
            && (Provision(v, i, w, s) == Err(DuplicateBind(w.groupId, w.keysetId)) <==> !corrupt && bound && !w.rebind)
            && (Provision(v, i, w, s).Ok? <==> !corrupt && (w.rebind || !bound))
    ensures Provision(v, i, w, s).Ok? ==>
              var r := Provision(v, i, w, s).value;
              && GroupPut(v.groups, r.groups, w.groupId, w.name)
              && BindingPut(v.maps, r.maps, Binding(w.groupId, w.keysetId), at)
              && KeysetPut(v.keysets, r.keysets, w.keysetId, s)
  {
    hide GroupPut, BindingPut, KeysetPut, NoSlot, PutGroup, PutKeyset, Bind, TruncateName;
    PutGroupPuts(v.groups, w.groupId, w.name);
    PutKeysetPuts(v.keysets, w.keysetId, s);
    BindRefused(v.maps, Link(w), w.rebind);
    at := [];
    if Bind(v.maps, Link(w), w.rebind).Some? { at := BindPuts(v.maps, Link(w), w.rebind); }
  }

  /** What a removal leaves are old rows in their order, `groups`, `maps` and `keysets` telling which: the groups but
      this one, the bindings of other groups, and the keysets that some other group is bound to or this one was not;
      keyset 0 always. */
  lemma RemovalKeeps(v: View, gid: uint16) returns (groups: seq<nat>, maps: seq<nat>, keysets: seq<nat>)
    requires DistinctIds(v.groups) && Remove(v, gid).Ok?
    ensures var r := Remove(v, gid).value;
            Picks(v.groups, groups, r.groups) && Picks(v.maps, maps, r.maps) && Picks(v.keysets, keysets, r.keysets)
    ensures forall k: nat :: k < |v.groups| ==> (k in groups <==> v.groups[k].id != gid)
    ensures forall k: nat :: k < |v.maps| ==> (k in maps <==> v.maps[k].val.groupId != gid)
    ensures forall k: nat :: k < |v.keysets| ==> (k in keysets <==> !LosesLast(v, gid, v.keysets[k].id))
  {
    hide Keep, Dropped, KeepIds, HasId, Picks, Unused, BindsKeyset;
    RemoveMeaning(v, gid);
    var r := Remove(v, gid).value;
    groups := KeepIdsPicks(v.groups, {gid});
    maps := KeepPicks(v.maps, OfGroup(gid));
    var gone := Unused(Dropped(v.maps, OfGroup(gid)), r.maps);
    keysets := KeepIdsPicks(v.keysets, gone);
    forall id: uint16
      ensures id in gone <==> LosesLast(v, gid, id)
    {
      GoneIff(v, gid, id);
    }
  }

  lemma GoneIff(v: View, gid: uint16, id: uint16)
    ensures id in Unused(Dropped(v.maps, OfGroup(gid)), Keep(v.maps, OfGroup(gid))) <==> LosesLast(v, gid, id)
  {
    hide Keep, Dropped, BindsKeyset, BoundByOther;
    DroppedNames(v.maps, gid, id);
    KeptNames(v.maps, gid, id);
  }

  /** Afterwards the fabric is on the list of fabrics once: a new one first, and the others where they were. */
  lemma RegisteredOnce(fabs: seq<uint16>, i: uint16)
    requires forall j, k :: 0 <= j < k < |fabs| ==> fabs[j] != fabs[k]
    ensures var r := Registered(fabs, i);
            && i in r && r[|r| - |fabs|..] == fabs && |r| == |fabs| + (if i in fabs then 0 else 1)
            && forall j, k :: 0 <= j < k < |r| ==> r[j] != r[k]
  {
    var r := Registered(fabs, i);
    assert i !in fabs ==> r[0] == i && r[1..] == fabs;
  }
}
