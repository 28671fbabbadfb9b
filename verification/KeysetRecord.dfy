/** In-place edits of a keyset record and the reader of its first key
    (crates/mat-controller/src/group_settings.rs, crates/mat-controller/src/kvs.rs). */
module KeysetRecord {
  import opened Wrappers
  import opened TlvCodec
  import opened TlvStream
  import opened TlvTrees
  import opened Records

  type Key16 = k: bytes | |k| == 16 witness seq(16, _ => 0)

  const NEXT := Context(7)

  /** An epoch key slot as the editor writes it. */
  datatype Slot = Slot(startTime: uint64, hash: uint16, key: Key16)

  predicate IsUint(t: Tree, tag: Tag) { t.Leaf? && t.tag == tag && t.value.Uint? }

  predicate IsBytes(t: Tree, tag: Tag) { t.Leaf? && t.tag == tag && t.value.Bytes? }

  // ---------------------------------------------------------------- the chain link

  /** The link of a record: the last ctx7 number that fits 16 bits, if the last one does. */
  function NextOf(ts: seq<Tree>): Option<uint16> { LastU16(CtxLeaves(ts), 7) }

  predicate HasNext(ts: seq<Tree>) {
    ts != [] && (IsUint(ts[0], NEXT) || HasNext(ts[1..]))
  }

  function RelinkOne(t: Tree, n: uint16): Tree {
    if IsUint(t, NEXT) then Leaf(NEXT, Uint(n)) else t
  }

  /** The record with its link replaced. */
  function SetNext(ts: seq<Tree>, n: uint16): (r: seq<Tree>)
    ensures |r| == |ts|
    ensures forall k :: 0 <= k < |ts| ==> r[k] == RelinkOne(ts[k], n)
  {
    if ts == [] then [] else [RelinkOne(ts[0], n)] + SetNext(ts[1..], n)
  }

  lemma {:induction false} SetNextProper(ts: seq<Tree>, n: uint16)
    requires ProperAll(ts)
    ensures ProperAll(SetNext(ts, n))
  {
    hide Proper;
    if ts != [] {
      SetNextProper(ts[1..], n);
      assert Proper(ts[0]);
      assert Proper(RelinkOne(ts[0], n)) by { ProperNumber(NEXT, n); }
      forall t | t in SetNext(ts, n)
        ensures Proper(t)
      {
        assert t == RelinkOne(ts[0], n) || t in SetNext(ts[1..], n);
      }
    }
  }

  lemma ProperNumber(tag: Tag, n: uint64)
    ensures Proper(Leaf(tag, Uint(n)))
  {
  }

  /** The last write wins. */
  lemma {:induction false} SetNextTwice(ts: seq<Tree>, m: uint16, n: uint16)
    ensures SetNext(SetNext(ts, m), n) == SetNext(ts, n)
  {
    if ts != [] {
      SetNextTwice(ts[1..], m, n);
      assert SetNext(ts, m)[1..] == SetNext(ts[1..], m);
    }
  }

  lemma {:induction false} SetNextSnoc(ts: seq<Tree>, t: Tree, n: uint16)
    ensures SetNext(ts + [t], n) == SetNext(ts, n) + [RelinkOne(t, n)]
  {
    if ts == [] {
      assert [] + [t] == [t];
    } else {
      assert (ts + [t])[1..] == ts[1..] + [t];
      SetNextSnoc(ts[1..], t, n);
    }
  }

  lemma {:induction false} HasNextSnoc(ts: seq<Tree>, t: Tree)
    ensures HasNext(ts + [t]) <==> HasNext(ts) || IsUint(t, NEXT)
  {
    if ts == [] {
      assert [] + [t] == [t];
    } else {
      assert (ts + [t])[1..] == ts[1..] + [t];
      HasNextSnoc(ts[1..], t);
    }
  }

  lemma {:induction false} LastU16Uniform(fs: seq<Field>, tag: uint8, n: uint16, k: nat)
    requires k < |fs| && fs[k].tag == tag && fs[k].value.Uint?
    requires forall j :: 0 <= j < |fs| && fs[j].tag == tag && fs[j].value.Uint? ==> fs[j].value.u == n
    ensures LastU16(fs, tag) == Some(n)
    decreases |fs|
  {
    if k < |fs| - 1 { LastU16Uniform(fs[..|fs| - 1], tag, n, k); }
  }

  /** All links of a relinked record are the new one, and there is one if there was one. */
  lemma {:induction false} LeavesOfSetNext(ts: seq<Tree>, n: uint16) returns (k: int)
    ensures var fs := CtxLeaves(SetNext(ts, n));
            && (forall j :: 0 <= j < |fs| && fs[j].tag == 7 && fs[j].value.Uint? ==> fs[j].value.u == n)
            && (HasNext(ts) ==> 0 <= k < |fs| && fs[k].tag == 7 && fs[k].value.Uint?)
  {
    k := 0;
    if ts != [] {
      var k' := LeavesOfSetNext(ts[1..], n);
      var head := RelinkOne(ts[0], n);
      assert SetNext(ts, n)[1..] == SetNext(ts[1..], n);
      var h := (match head case Leaf(Context(t), v) => [Field(t, v)] case _ => []);
      assert CtxLeaves(SetNext(ts, n)) == h + CtxLeaves(SetNext(ts[1..], n));
      k := if IsUint(ts[0], NEXT) then 0 else |h| + k';
    }
  }

  /** What was written is read back. */
  lemma NextOfSetNext(ts: seq<Tree>, n: uint16)
    requires HasNext(ts)
    ensures NextOf(SetNext(ts, n)) == Some(n)
  {
    var k := LeavesOfSetNext(ts, n);
    LastU16Uniform(CtxLeaves(SetNext(ts, n)), 7, n, k);
  }

  lemma {:induction false} HasNextSetNext(ts: seq<Tree>, n: uint16)
    ensures HasNext(SetNext(ts, n)) == HasNext(ts)
  {
    if ts != [] {
      HasNextSetNext(ts[1..], n);
      assert SetNext(ts, n)[1..] == SetNext(ts[1..], n);
    }
  }

  /** A record has a link to read exactly when it has one to write, unless that one exceeds 16 bits. */
  lemma {:induction false} NextOfSome(fs: seq<Field>)
    ensures LastU16(fs, 7).Some? ==> exists k :: 0 <= k < |fs| && fs[k].tag == 7 && fs[k].value.Uint?
    decreases |fs|
  {
    if fs != [] {
      NextOfSome(fs[..|fs| - 1]);
      var l := |fs| - 1;
      assert (fs[l].tag == 7 && fs[l].value.Uint?) || LastU16(fs, 7) == LastU16(fs[..l], 7);
    }
  }

  lemma {:induction false} LeafWithNext(ts: seq<Tree>, k: nat)
    requires k < |CtxLeaves(ts)| && CtxLeaves(ts)[k].tag == 7 && CtxLeaves(ts)[k].value.Uint?
    ensures HasNext(ts)
  {
    var h := (match ts[0] case Leaf(Context(t), v) => [Field(t, v)] case _ => []);
    assert CtxLeaves(ts) == h + CtxLeaves(ts[1..]);
    if k >= |h| { LeafWithNext(ts[1..], k - |h|); }
  }

  lemma NextImpliesHasNext(ts: seq<Tree>)
    requires NextOf(ts).Some?
    ensures HasNext(ts)
  {
    var fs := CtxLeaves(ts);
    NextOfSome(fs);
    var k :| 0 <= k < |fs| && fs[k].tag == 7 && fs[k].value.Uint?;
    LeafWithNext(ts, k);
  }

  // ---------------------------------------------------------------- the first slot

  const KEYS := Context(3)
  const START := Context(4)
  const HASH := Context(5)
  const KEY := Context(6)

  predicate IsKeys(t: Tree) { t.Branch? && t.tag == KEYS && t.start.ArrayStart? }

  predicate IsStruct(t: Tree) { t.Branch? && t.start.StructStart? }

  function ReplaceOne(t: Tree, s: Slot): Tree {
    if IsUint(t, START) then Leaf(START, Uint(s.startTime))
    else if IsUint(t, HASH) then Leaf(HASH, Uint(s.hash))
    else if IsBytes(t, KEY) then Leaf(KEY, Bytes(s.key))
    else t
  }

  function Replace(ts: seq<Tree>, s: Slot): (r: seq<Tree>)
    ensures |r| == |ts|
    ensures forall k :: 0 <= k < |ts| ==> r[k] == ReplaceOne(ts[k], s)
  {
    if ts == [] then [] else [ReplaceOne(ts[0], s)] + Replace(ts[1..], s)
  }

  predicate AnyUint(ts: seq<Tree>, tag: Tag) { exists k :: 0 <= k < |ts| && IsUint(ts[k], tag) }

  predicate AnyBytes(ts: seq<Tree>, tag: Tag) { exists k :: 0 <= k < |ts| && IsBytes(ts[k], tag) }

  /** What the editor appends because the slot did not have it. */
  function Missing(ts: seq<Tree>, s: Slot): seq<Tree> {
    (if AnyUint(ts, START) then [] else [Leaf(START, Uint(s.startTime))])
    + (if AnyUint(ts, HASH) then [] else [Leaf(HASH, Uint(s.hash))])
    + (if AnyBytes(ts, KEY) then [] else [Leaf(KEY, Bytes(s.key))])
  }

  /** The fields of a slot with start time, hash and key replaced, or added at the end. */
  function EditSlot(ts: seq<Tree>, s: Slot): seq<Tree> { Replace(ts, s) + Missing(ts, s) }

  /** An array of slots with the first one edited; the first element must be a struct. */
  predicate Editable(t: Tree) { IsKeys(t) && t.kids != [] && IsStruct(t.kids[0]) }

  function EditKeys(t: Tree, s: Slot): Tree
    requires Editable(t)
  {
    Branch(KEYS, ArrayStart, [Branch(Anonymous, StructStart, EditSlot(t.kids[0].kids, s))] + t.kids[1..])
  }

  /** Position of the first key array, the length of the record when there is none. */
  function KeysAt(ts: seq<Tree>): (k: nat)
    ensures k <= |ts| && (k < |ts| ==> IsKeys(ts[k]))
    ensures forall j :: 0 <= j < k ==> !IsKeys(ts[j])
  {
    if ts == [] then 0 else if IsKeys(ts[0]) then 0 else 1 + KeysAt(ts[1..])
  }

  /** The record with its first slot edited; `None` without a key array that starts with a struct. */
  function SetSlot0(ts: seq<Tree>, s: Slot): Option<seq<Tree>> {
    var k := KeysAt(ts);
    if k < |ts| && Editable(ts[k]) then Some(ts[k := EditKeys(ts[k], s)]) else None
  }

  lemma KeysAtUnique(ts: seq<Tree>, k: nat)
    requires k < |ts| && IsKeys(ts[k]) && forall j :: 0 <= j < k ==> !IsKeys(ts[j])
    ensures KeysAt(ts) == k
  {
  }

  lemma ReplaceTwice(ts: seq<Tree>, a: Slot, b: Slot)
    ensures Replace(Replace(ts, a), b) == Replace(ts, b)
  {
  }

  lemma ReplaceKeepsKinds(ts: seq<Tree>, s: Slot)
    ensures AnyUint(Replace(ts, s), START) <==> AnyUint(ts, START)
    ensures AnyUint(Replace(ts, s), HASH) <==> AnyUint(ts, HASH)
    ensures AnyBytes(Replace(ts, s), KEY) <==> AnyBytes(ts, KEY)
  {
    var r := Replace(ts, s);
    assert forall k :: 0 <= k < |ts| ==>
        (IsUint(r[k], START) <==> IsUint(ts[k], START)) && (IsUint(r[k], HASH) <==> IsUint(ts[k], HASH))
        && (IsBytes(r[k], KEY) <==> IsBytes(ts[k], KEY));
  }

  lemma {:induction false} ReplaceConcat(a: seq<Tree>, b: seq<Tree>, s: Slot)
    ensures Replace(a + b, s) == Replace(a, s) + Replace(b, s)
  {
    var l, r := Replace(a + b, s), Replace(a, s) + Replace(b, s);
    assert forall k :: 0 <= k < |l| ==> l[k] == r[k];
  }

  lemma AnyInConcat(a: seq<Tree>, b: seq<Tree>, tag: Tag)
    ensures AnyUint(a + b, tag) <==> AnyUint(a, tag) || AnyUint(b, tag)
    ensures AnyBytes(a + b, tag) <==> AnyBytes(a, tag) || AnyBytes(b, tag)
  {
    var c := a + b;
    assert forall k :: 0 <= k < |a| ==> c[k] == a[k];
    assert forall k :: 0 <= k < |b| ==> c[|a| + k] == b[k];
  }

  lemma EditedSlotIsComplete(ts: seq<Tree>, s: Slot)
    ensures var r := EditSlot(ts, s); AnyUint(r, START) && AnyUint(r, HASH) && AnyBytes(r, KEY)
  {
    var a, m := Replace(ts, s), Missing(ts, s);
    ReplaceKeepsKinds(ts, s);
    AnyInConcat(a, m, START); AnyInConcat(a, m, HASH); AnyInConcat(a, m, KEY);
    assert !AnyUint(ts, START) ==> IsUint(m[0], START);
    assert !AnyUint(ts, HASH) ==> IsUint(m[if AnyUint(ts, START) then 0 else 1], HASH);
    assert !AnyBytes(ts, KEY) ==> IsBytes(m[|m| - 1], KEY);
  }

  lemma ReplaceMissing(ts: seq<Tree>, a: Slot, b: Slot)
    ensures Replace(Missing(ts, a), b) == Missing(ts, b)
  {
    hide AnyUint, AnyBytes;
    var m, r := Missing(ts, a), Missing(ts, b);
    assert |m| == |r| && forall k :: 0 <= k < |r| ==> ReplaceOne(m[k], b) == r[k];
  }

  /** Editing a slot twice is editing it once. */
  lemma EditSlotTwice(ts: seq<Tree>, a: Slot, b: Slot)
    ensures EditSlot(EditSlot(ts, a), b) == EditSlot(ts, b)
  {
    EditedSlotIsComplete(ts, a);
    ReplaceConcat(Replace(ts, a), Missing(ts, a), b);
    ReplaceTwice(ts, a, b);
    ReplaceMissing(ts, a, b);
    var x := EditSlot(ts, a);
    assert x == Replace(ts, a) + Missing(ts, a);
    assert Missing(x, b) == [];
    hide Missing, Replace;
    assert Replace(x, b) == Replace(ts, b) + Missing(ts, b);
    assert EditSlot(x, b) == Replace(x, b) + [];
  }

  lemma SetSlot0Keeps(ts: seq<Tree>, s: Slot)
    requires SetSlot0(ts, s).Some?
    ensures var r := SetSlot0(ts, s).value;
            && |r| == |ts| && KeysAt(r) == KeysAt(ts) < |ts|
            && (forall j :: 0 <= j < |ts| && j != KeysAt(ts) ==> r[j] == ts[j])
            && r[KeysAt(ts)] == EditKeys(ts[KeysAt(ts)], s) && Editable(r[KeysAt(ts)])
  {
    hide EditSlot;
    var k := KeysAt(ts);
    var e := EditKeys(ts[k], s);
    assert e.kids[0] == Branch(Anonymous, StructStart, EditSlot(ts[k].kids[0].kids, s));
    assert Editable(e);
    hide KeysAt;
    KeysAtUnique(SetSlot0(ts, s).value, k);
  }

  /** The last slot edit wins. */
  lemma SetSlot0Twice(ts: seq<Tree>, a: Slot, b: Slot)
    requires SetSlot0(ts, a).Some?
    ensures SetSlot0(SetSlot0(ts, a).value, b) == SetSlot0(ts, b)
  {
    hide EditSlot;
    SetSlot0Keeps(ts, a);
    var k := KeysAt(ts);
    var t := ts[k];
    EditSlotTwice(t.kids[0].kids, a, b);
    var e := EditKeys(t, a);
    assert e.kids[1..] == t.kids[1..];
    assert EditKeys(e, b) == EditKeys(t, b);
    assert ts[k := e][k := EditKeys(t, b)] == ts[k := EditKeys(t, b)];
  }

  /** The element is what the editor would write in its place. */
  predicate Fits(t: Tree, s: Slot) {
    && (IsUint(t, START) ==> t.value.u == s.startTime)
    && (IsUint(t, HASH) ==> t.value.u == s.hash)
    && (IsBytes(t, KEY) ==> t.value.data == s.key)
  }

  /** The fields hold this start time, hash and key, all three, wherever they occur. */
  predicate SlotIs(kids: seq<Tree>, s: Slot) {
    && AnyUint(kids, START) && AnyUint(kids, HASH) && AnyBytes(kids, KEY)
    && forall j :: 0 <= j < |kids| ==> Fits(kids[j], s)
  }

  /** The first slot of the record, an untagged struct, holds this start time, hash and key. */
  predicate HoldsSlot(ts: seq<Tree>, s: Slot) {
    var k := KeysAt(ts);
    && k < |ts| && Editable(ts[k])
    && ts[k].kids[0].tag == Anonymous && SlotIs(ts[k].kids[0].kids, s)
  }

  lemma EditSlotSame(kids: seq<Tree>, s: Slot)
    ensures EditSlot(kids, s) == kids <==> SlotIs(kids, s)
  {
    hide AnyUint, AnyBytes;
    var r := Replace(kids, s);
    if EditSlot(kids, s) == kids {
      assert |r| == |kids| && |Missing(kids, s)| == 0;
      assert r + [] == kids;
    } else if Missing(kids, s) == [] {
      assert r + [] == r;
    }
    forall j | 0 <= j < |kids|
      ensures r[j] == kids[j] <==> Fits(kids[j], s)
    {
      FitsIsSame(kids[j], s);
    }
  }

  lemma FitsIsSame(t: Tree, s: Slot)
    ensures ReplaceOne(t, s) == t <==> Fits(t, s)
  {
  }

  /** Editing the first slot changes nothing exactly if the slot holds what is written. */
  lemma SetSlot0Same(ts: seq<Tree>, s: Slot)
    ensures SetSlot0(ts, s) == Some(ts) <==> HoldsSlot(ts, s)
  {
    hide EditSlot, SlotIs, KeysAt;
    var k := KeysAt(ts);
    if k < |ts| && Editable(ts[k]) {
      var t := ts[k];
      EditSlotSame(t.kids[0].kids, s);
      var e := EditKeys(t, s);
      assert e.kids[1..] == t.kids[1..];
      assert t.kids == [t.kids[0]] + t.kids[1..];
      assert e == t <==> e.kids[0] == t.kids[0];
      assert ts[k := e] == ts <==> e == t by { assert ts[k := e][k] == e; }
    }
  }

  /** Relinking and editing the first slot commute. */
  lemma EditsCommute(ts: seq<Tree>, n: uint16, s: Slot)
    ensures SetSlot0(SetNext(ts, n), s) ==
            match SetSlot0(ts, s) case None => None case Some(r) => Some(SetNext(r, n))
  {
    hide EditSlot, Editable;
    var k := KeysAt(ts);
    var m := SetNext(ts, n);
    if k < |ts| {
      assert m[k] == ts[k];
      KeysAtUnique(m, k);
      if Editable(ts[k]) {
        var e := EditKeys(ts[k], s);
        assert RelinkOne(e, n) == e;
        assert m[k := e] == SetNext(ts[k := e], n);
      }
    } else {
      assert forall j :: 0 <= j < |m| ==> !IsKeys(m[j]) by {
        assert forall j :: 0 <= j < |m| ==> IsKeys(m[j]) ==> IsKeys(ts[j]);
      }
    }
  }

  lemma {:induction false} LeavesOfUpdate(ts: seq<Tree>, k: nat, t: Tree)
    requires k < |ts| && ts[k].Branch? && t.Branch?
    ensures CtxLeaves(ts[k := t]) == CtxLeaves(ts)
  {
    if k > 0 {
      LeavesOfUpdate(ts[1..], k - 1, t);
      assert ts[k := t][1..] == ts[1..][k - 1 := t];
    } else {
      assert ts[k := t][1..] == ts[1..];
    }
  }

  lemma {:induction false} HasNextOfUpdate(ts: seq<Tree>, k: nat, t: Tree)
    requires k < |ts| && ts[k].Branch? && t.Branch?
    ensures HasNext(ts[k := t]) == HasNext(ts)
  {
    if k > 0 {
      HasNextOfUpdate(ts[1..], k - 1, t);
      assert ts[k := t][1..] == ts[1..][k - 1 := t];
    } else {
      assert ts[k := t][1..] == ts[1..];
    }
  }

  /** Editing the first slot leaves every plain field of the record alone, the link included. */
  lemma SetSlot0KeepsNext(ts: seq<Tree>, s: Slot)
    requires SetSlot0(ts, s).Some?
    ensures var r := SetSlot0(ts, s).value;
            CtxLeaves(r) == CtxLeaves(ts) && NextOf(r) == NextOf(ts) && HasNext(r) == HasNext(ts)
  {
    hide CtxLeaves, HasNext, LastU16, EditKeys;
    var k := KeysAt(ts);
    assert EditKeys(ts[k], s).Branch? by { EditKeysIsBranch(ts[k], s); }
    LeavesOfUpdate(ts, k, EditKeys(ts[k], s));
    HasNextOfUpdate(ts, k, EditKeys(ts[k], s));
  }

  lemma EditKeysIsBranch(t: Tree, s: Slot)
    requires Editable(t)
    ensures EditKeys(t, s).Branch?
  {
  }

  // ---------------------------------------------------------------- the edits on stored bytes

  /** The link of a stored record. */
  function KeysetNext(blob: bytes): Option<uint16> {
    match Fields(blob) case None => None case Some(ts) => NextOf(ts)
  }

  function KeysetWithNext(blob: bytes, n: uint16): (r: Option<bytes>)
    ensures r.Some? ==> r.value != []
  {
    match Fields(blob)
    case None => None
    case Some(ts) => if HasNext(ts) then SetNextProper(ts, n); Some(StructBytes(SetNext(ts, n))) else None
  }

  function KeysetWithSlot0(blob: bytes, s: Slot): (r: Option<bytes>)
    ensures r.Some? ==> r.value != []
  {
    match Fields(blob)
    case None => None
    case Some(ts) =>
      match SetSlot0(ts, s)
      case None => None
      case Some(edited) => SetSlot0Proper(ts, s); Some(StructBytes(edited))
  }

  lemma EditSlotProper(ts: seq<Tree>, s: Slot)
    requires ProperAll(ts)
    ensures ProperAll(EditSlot(ts, s))
  {
    hide ProperAll;
    var r := EditSlot(ts, s);
    forall k | 0 <= k < |r|
      ensures Proper(r[k])
    {
      if k < |ts| { assert r[k] == ReplaceOne(ts[k], s) && ts[k] in ts; InForest(ts, k); }
    }
    AllProper(r);
  }

  lemma InForest(ts: seq<Tree>, k: nat)
    requires ProperAll(ts) && k < |ts|
    ensures Proper(ts[k])
  {
  }

  lemma AllProper(ts: seq<Tree>)
    requires forall k :: 0 <= k < |ts| ==> Proper(ts[k])
    ensures ProperAll(ts)
  {
  }

  lemma EditKeysProper(t: Tree, s: Slot)
    requires Editable(t) && Proper(t)
    ensures Proper(EditKeys(t, s))
  {
    hide EditSlot;
    InForest(t.kids, 0);
    EditSlotProper(t.kids[0].kids, s);
    var kids := EditKeys(t, s).kids;
    forall k | 0 <= k < |kids|
      ensures Proper(kids[k])
    {
      if k > 0 { InForest(t.kids, k); assert kids[k] == t.kids[k]; }
    }
    AllProper(kids);
  }

  lemma SetSlot0Proper(ts: seq<Tree>, s: Slot)
    requires ProperAll(ts) && SetSlot0(ts, s).Some?
    ensures ProperAll(SetSlot0(ts, s).value)
  {
    hide ProperAll, EditKeys, Proper;
    var k := KeysAt(ts);
    InForest(ts, k);
    EditKeysProper(ts[k], s);
    var r := SetSlot0(ts, s).value;
    forall j | 0 <= j < |r|
      ensures Proper(r[j])
    {
      InForest(ts, j);
    }
    AllProper(r);
  }

  lemma FieldsAfterNext(blob: bytes, n: uint16)
    requires KeysetWithNext(blob, n).Some?
    ensures Fields(blob).Some? && HasNext(Fields(blob).value)
    ensures Fields(KeysetWithNext(blob, n).value) == Some(SetNext(Fields(blob).value, n))
  {
    hide Fields, StructBytes, SetNext, ProperAll;
    SetNextProper(Fields(blob).value, n);
    FieldsOfStruct(SetNext(Fields(blob).value, n));
  }

  lemma FieldsAfterSlot0(blob: bytes, s: Slot)
    requires KeysetWithSlot0(blob, s).Some?
    ensures Fields(blob).Some? && SetSlot0(Fields(blob).value, s).Some?
    ensures Fields(KeysetWithSlot0(blob, s).value) == SetSlot0(Fields(blob).value, s)
  {
    hide Fields, StructBytes, SetSlot0, ProperAll;
    SetSlot0Proper(Fields(blob).value, s);
    FieldsOfStruct(SetSlot0(Fields(blob).value, s).value);
  }

  /** Every link holds `n`, and every other element is in its place. */
  ghost predicate OnlyLinks(ts: seq<Tree>, r: seq<Tree>, n: uint16) {
    |r| == |ts| && forall k :: 0 <= k < |ts| ==> r[k] == if IsUint(ts[k], Context(7)) then Leaf(Context(7), Uint(n)) else ts[k]
  }

  /** Laws of the link edit on any stored record it accepts: the written link is read back, a second write
      replaces the first, and element by element the record is the old one with its link replaced. */
  lemma LinkLaws(blob: bytes, m: uint16, n: uint16)
    requires KeysetWithNext(blob, m).Some?
    ensures var b := KeysetWithNext(blob, m).value;
            && KeysetNext(b) == Some(m)
            && KeysetWithNext(b, n) == KeysetWithNext(blob, n)
            && Fields(blob).Some? && Fields(b) == Some(SetNext(Fields(blob).value, m))
            && OnlyLinks(Fields(blob).value, Fields(b).value, m)
  {
    FieldsAfterNext(blob, m);
    hide Fields, StructBytes, NextOf, HasNext, ProperAll;
    var ts := Fields(blob).value;
    NextOfSetNext(ts, m);
    SetNextTwice(ts, m, n);
    HasNextSetNext(ts, m);
  }

  /** Laws of the slot edit: the link stays readable and unchanged, the last edit wins, and it commutes with
      the link edit. */
  lemma SlotLaws(blob: bytes, s: Slot, t: Slot, n: uint16)
    requires KeysetWithSlot0(blob, s).Some?
    ensures var b := KeysetWithSlot0(blob, s).value;
            && KeysetNext(b) == KeysetNext(blob)
            && KeysetWithSlot0(b, t) == KeysetWithSlot0(blob, t)
            && KeysetWithNext(b, n) ==
               (match KeysetWithNext(blob, n) case None => None case Some(c) => KeysetWithSlot0(c, s))
  {
    hide Fields, StructBytes, NextOf, HasNext, ProperAll, SetSlot0, SetNext, CtxLeaves;
    FieldsAfterSlot0(blob, s);
    var ts := Fields(blob).value;
    SetSlot0KeepsNext(ts, s);
    SetSlot0Twice(ts, s, t);
    EditsCommute(ts, n, s);
    if HasNext(ts) {
      FieldsAfterNext(blob, n);
    }
  }

  // ---------------------------------------------------------------- the streaming editors

  /** Copies a record with its link replaced. */
  method RelinkStream(blob: bytes, n: uint16) returns (r: Option<bytes>)
    requires |blob| < 0x8000_0000_0000_0000
    ensures r == KeysetWithNext(blob, n)
  {
    hide Read, Parse, Progress, Enc, TreeBytes, SetNext, HasNext, ProperAll, Proper;
    var rd := new Reader(blob);
    var first := rd.Next();
    if first.Err? || first.value.None? || !first.value.value.value.StructStart? { return None; }
    var w := new Writer();
    w.Start(Anonymous, StructStart);
    var seenNext := false;
    ghost var start, done: seq<Tree> := rd.pos, [];
    ghost var opening := w.buf;
    assert opening == Enc(Element(Anonymous, StructStart));
    ProgressStart(blob, start);
    EmptyRecord(n);
    assert opening + ForestBytes([]) == opening;
    while true
      invariant rd.Valid() && rd.buf == blob && Progress(blob, start, rd.pos, done)
      invariant w.depth == 1 && ProperAll(SetNext(done, n)) && w.buf == opening + ForestBytes(SetNext(done, n))
      invariant seenNext == HasNext(done)
      decreases |blob| - rd.pos
    {
      ProgressStep(blob, start, rd.pos, done);
      var el := rd.Next();
      if el.Err? || el.value.None? { return None; }
      var e := el.value.value;
      if e.value.ContainerEnd? { break; }
      ghost var t := ParseTree(blob, rd.pos, e);
      if e.tag == NEXT && e.value.Uint? {
        w.PutUint(NEXT, n);
        seenNext := true;
      } else {
        var copied := CopyValue(w, rd, e.tag, e.value);
        if copied.Err? { return None; }
      }
      AppendRelinked(opening, done, t.value.0, n);
      done := done + [t.value.0];
    }
    if !seenNext { return None; }
    w.EndContainer();
    RecordLayout(SetNext(done, n));
    ConcatAssoc(opening, ForestBytes(SetNext(done, n)), Enc(END));
    return Some(w.buf);
  }

  lemma EmptyRecord(n: uint16)
    ensures SetNext([], n) == [] && !HasNext([]) && ProperAll([])
  {
  }

  lemma AppendRelinked(opening: bytes, done: seq<Tree>, t: Tree, n: uint16)
    requires ProperAll(SetNext(done, n)) && Proper(t)
    ensures HasNext(done + [t]) <==> HasNext(done) || IsUint(t, NEXT)
    ensures Proper(RelinkOne(t, n)) && ProperAll(SetNext(done + [t], n))
    ensures (opening + ForestBytes(SetNext(done, n))) + TreeBytes(RelinkOne(t, n))
         == opening + ForestBytes(SetNext(done + [t], n))
    ensures IsUint(t, NEXT) ==> TreeBytes(RelinkOne(t, n)) == Enc(Element(NEXT, Uint(n)))
  {
    hide Enc, SetNext, HasNext, ProperAll;
    HasNextSnoc(done, t);
    SetNextSnoc(done, t, n);
    ForestSnoc(SetNext(done, n), RelinkOne(t, n));
    ConcatAssoc(opening, ForestBytes(SetNext(done, n)), TreeBytes(RelinkOne(t, n)));
  }

  lemma RecordLayout(ts: seq<Tree>)
    requires ProperAll(ts)
    ensures StructBytes(ts) == Enc(Element(Anonymous, StructStart)) + (ForestBytes(ts) + Enc(END))
  {
    hide Enc;
  }

  /** The bytes of an edited slot after its start. */
  function SlotRest(kids: seq<Tree>, s: Slot): bytes
    requires ProperAll(kids)
  {
    EditSlotProper(kids, s);
    ForestBytes(EditSlot(kids, s)) + Enc(END)
  }

  /** Writes one element of a slot, replaced if it is one of the three edited fields; tells which. */
  method ReplaceElement(w: Writer, rd: Reader, e: Element, s: Slot)
    returns (ok: bool, is4: bool, is5: bool, is6: bool)
    requires rd.Valid() && Writable(e.value) && !e.value.ContainerEnd?
    modifies w, rd
    ensures rd.Valid() && ok == ParseTree(rd.buf, old(rd.pos), e).Ok?
    ensures ok ==>
              var (t, end) := ParseTree(rd.buf, old(rd.pos), e).value;
              && rd.pos == end && w.depth == old(w.depth)
              && Proper(ReplaceOne(t, s)) && w.buf == old(w.buf) + TreeBytes(ReplaceOne(t, s))
              && is4 == IsUint(t, START) && is5 == IsUint(t, HASH) && is6 == IsBytes(t, KEY)
  {
    hide Enc, Parse, Read;
    OtherTree(rd.buf, rd.pos, e);
    is4 := e.tag == START && e.value.Uint?;
    is5 := e.tag == HASH && e.value.Uint?;
    is6 := e.tag == KEY && e.value.Bytes?;
    ok := true;
    if is4 {
      w.PutUint(START, s.startTime);
    } else if is5 {
      w.PutUint(HASH, s.hash);
    } else if is6 {
      w.PutBytes(KEY, s.key);
    } else {
      var copied := CopyValue(w, rd, e.tag, e.value);
      ok := copied.Ok?;
    }
  }

  /** Writes the fields of a slot up to its end marker, which is read but not written; tells which of the
      edited fields were there. */
  method ReplaceFields(w: Writer, rd: Reader, s: Slot) returns (ok: bool, put4: bool, put5: bool, put6: bool)
    requires rd.Valid()
    modifies w, rd
    ensures rd.Valid() && ok == Parse(rd.buf, old(rd.pos)).Ok?
    ensures ok ==>
              var (kids, end) := Parse(rd.buf, old(rd.pos)).value;
              && rd.pos == end && w.depth == old(w.depth) && ProperAll(Replace(kids, s))
              && w.buf == old(w.buf) + ForestBytes(Replace(kids, s))
              && put4 == AnyUint(kids, START) && put5 == AnyUint(kids, HASH) && put6 == AnyBytes(kids, KEY)
  {
    hide Read, Parse, ParseTree, Progress, ForestBytes, ProperAll, Replace, AnyUint, AnyBytes, IsUint, IsBytes;
    hide ReplaceOne, Enc, TreeBytes, Proper;
    ghost var done: seq<Tree> := [];
    put4, put5, put6 := false, false, false;
    ProgressStart(rd.buf, rd.pos);
    EmptySlot(s);
    assert w.buf + [] == w.buf;
    while true
      invariant rd.Valid() && old(rd.pos) <= rd.pos && Progress(rd.buf, old(rd.pos), rd.pos, done)
      invariant w.depth == old(w.depth) && ProperAll(Replace(done, s))
      invariant w.buf == old(w.buf) + ForestBytes(Replace(done, s))
      invariant put4 == AnyUint(done, START) && put5 == AnyUint(done, HASH) && put6 == AnyBytes(done, KEY)
      decreases |rd.buf| - rd.pos
    {
      ProgressStep(rd.buf, old(rd.pos), rd.pos, done);
      var el := rd.Next();
      if el.Err? || el.value.None? { return false, put4, put5, put6; }
      var e := el.value.value;
      if e.value.ContainerEnd? { return true, put4, put5, put6; }
      ghost var t := ParseTree(rd.buf, rd.pos, e);
      var replaced, is4, is5, is6 := ReplaceElement(w, rd, e, s);
      if !replaced { return false, put4, put5, put6; }
      put4, put5, put6 := put4 || is4, put5 || is5, put6 || is6;
      AppendReplaced(old(w.buf), done, t.value.0, s);
      done := done + [t.value.0];
    }
  }

  /** Rewrites the rest of a slot whose start has been read and written. */
  method EditSlotStream(w: Writer, rd: Reader, s: Slot) returns (ok: bool)
    requires rd.Valid() && w.depth > 0
    modifies w, rd
    ensures rd.Valid() && ok == Parse(rd.buf, old(rd.pos)).Ok?
    ensures ok ==>
              var (kids, end) := Parse(rd.buf, old(rd.pos)).value;
              && rd.pos == end && w.depth == old(w.depth) - 1
              && w.buf == old(w.buf) + SlotRest(kids, s)
  {
    hide Parse, Enc, ForestBytes, ProperAll, AnyUint, AnyBytes, Replace, Missing, EditSlot;
    var put4, put5, put6;
    ok, put4, put5, put6 := ReplaceFields(w, rd, s);
    if !ok { return; }
    ghost var kids := Parse(rd.buf, old(rd.pos)).value.0;
    ghost var before := w.buf;
    if !put4 { w.PutUint(START, s.startTime); }
    if !put5 { w.PutUint(HASH, s.hash); }
    if !put6 { w.PutBytes(KEY, s.key); }
    assert w.buf == before + MissingBytes(kids, s);
    AppendMissing(old(w.buf), kids, s);
    w.EndContainer();
    ConcatAssoc(old(w.buf), ForestBytes(EditSlot(kids, s)), Enc(END));
  }

  lemma EmptySlot(s: Slot)
    ensures Replace([], s) == [] && ProperAll([]) && ForestBytes([]) == []
    ensures !AnyUint([], START) && !AnyUint([], HASH) && !AnyBytes([], KEY)
  {
  }

  lemma OtherTree(buf: bytes, pos: nat, e: Element)
    requires pos <= |buf| && Writable(e.value) && !e.value.ContainerEnd?
    ensures ParseTree(buf, pos, e).Ok? ==>
              var t := ParseTree(buf, pos, e).value.0;
              t.tag == e.tag && (t.Leaf? ==> t.value == e.value)
              && (t.Branch? <==> IsStart(e.value)) && (t.Branch? ==> t.start == e.value)
  {
    hide Parse;
  }

  lemma AnySnoc(ts: seq<Tree>, t: Tree, tag: Tag)
    ensures AnyUint(ts + [t], tag) <==> AnyUint(ts, tag) || IsUint(t, tag)
    ensures AnyBytes(ts + [t], tag) <==> AnyBytes(ts, tag) || IsBytes(t, tag)
  {
    AnyInConcat(ts, [t], tag);
    assert IsUint([t][0], tag) == IsUint(t, tag) && IsBytes([t][0], tag) == IsBytes(t, tag);
  }

  lemma ReplaceSnoc(ts: seq<Tree>, t: Tree, s: Slot)
    ensures Replace(ts + [t], s) == Replace(ts, s) + [ReplaceOne(t, s)]
  {
    ReplaceConcat(ts, [t], s);
    assert Replace([t], s)[0] == ReplaceOne(t, s);
  }

  lemma AppendReplaced(before: bytes, done: seq<Tree>, t: Tree, s: Slot)
    requires ProperAll(Replace(done, s)) && Proper(t)
    ensures AnyUint(done + [t], START) <==> AnyUint(done, START) || IsUint(t, START)
    ensures AnyUint(done + [t], HASH) <==> AnyUint(done, HASH) || IsUint(t, HASH)
    ensures AnyBytes(done + [t], KEY) <==> AnyBytes(done, KEY) || IsBytes(t, KEY)
    ensures Proper(ReplaceOne(t, s)) && ProperAll(Replace(done + [t], s))
    ensures (before + ForestBytes(Replace(done, s))) + TreeBytes(ReplaceOne(t, s))
         == before + ForestBytes(Replace(done + [t], s))
  {
    AnySnoc(done, t, START); AnySnoc(done, t, HASH); AnySnoc(done, t, KEY);
    hide Enc, Replace, ProperAll, AnyUint, AnyBytes;
    ReplaceSnoc(done, t, s);
    ForestSnoc(Replace(done, s), ReplaceOne(t, s));
    ConcatAssoc(before, ForestBytes(Replace(done, s)), TreeBytes(ReplaceOne(t, s)));
  }

  lemma ForestOfLeaf(tag: Tag, v: Value)
    requires Writable(v) && !IsStart(v) && !v.ContainerEnd?
    ensures ProperAll([Leaf(tag, v)]) && ForestBytes([Leaf(tag, v)]) == Enc(Element(tag, v))
  {
    hide Enc;
    assert [Leaf(tag, v)][1..] == [];
    assert Enc(Element(tag, v)) + [] == Enc(Element(tag, v));
  }

  /** The bytes of the fields a slot lacked. */
  function MissingBytes(ts: seq<Tree>, s: Slot): bytes {
    (if AnyUint(ts, START) then [] else Enc(Element(START, Uint(s.startTime))))
    + (if AnyUint(ts, HASH) then [] else Enc(Element(HASH, Uint(s.hash))))
    + (if AnyBytes(ts, KEY) then [] else Enc(Element(KEY, Bytes(s.key))))
  }

  lemma ForestOfMissing(ts: seq<Tree>, s: Slot)
    ensures ProperAll(Missing(ts, s)) && ForestBytes(Missing(ts, s)) == MissingBytes(ts, s)
  {
    ForestOfLeaf(START, Uint(s.startTime));
    ForestOfLeaf(HASH, Uint(s.hash));
    ForestOfLeaf(KEY, Bytes(s.key));
    hide Enc, ProperAll, AnyUint, AnyBytes;
    var a := if AnyUint(ts, START) then [] else [Leaf(START, Uint(s.startTime))];
    var b := if AnyUint(ts, HASH) then [] else [Leaf(HASH, Uint(s.hash))];
    var c := if AnyBytes(ts, KEY) then [] else [Leaf(KEY, Bytes(s.key))];
    EmptySlot(s);
    ForestConcat(a, b);
    ForestConcat(a + b, c);
  }

  lemma AppendMissing(before: bytes, ts: seq<Tree>, s: Slot)
    requires ProperAll(Replace(ts, s))
    ensures ProperAll(EditSlot(ts, s))
    ensures (before + ForestBytes(Replace(ts, s))) + MissingBytes(ts, s) == before + ForestBytes(EditSlot(ts, s))
  {
    hide Enc, Replace, ProperAll, Missing, MissingBytes;
    ForestOfMissing(ts, s);
    ForestConcat(Replace(ts, s), Missing(ts, s));
    ConcatAssoc(before, ForestBytes(Replace(ts, s)), MissingBytes(ts, s));
  }

  /** The parts of a parsed container whose first element is a struct. */
  lemma FirstKidStruct(buf: bytes, pos: nat)
    requires Read(buf, pos).Ok? && Read(buf, pos).value.Some?
    ensures var (e, next) := Read(buf, pos).value.value;
            if !e.value.StructStart? then
              Parse(buf, pos).Ok? ==> Parse(buf, pos).value.0 == [] || !IsStruct(Parse(buf, pos).value.0[0])
            else if Parse(buf, next).Err? then Parse(buf, pos).Err?
            else
              var (kids, after) := Parse(buf, next).value;
              (Parse(buf, pos).Ok? <==> Parse(buf, after).Ok?)
              && (Parse(buf, pos).Ok? ==>
                    Parse(buf, pos).value == ([Branch(e.tag, StructStart, kids)] + Parse(buf, after).value.0,
                                              Parse(buf, after).value.1))
  {
    hide Read;
  }

  lemma KeysLayout(kids: seq<Tree>, rest: seq<Tree>, s: Slot, tag: Tag)
    requires ProperAll(kids) && ProperAll(rest)
    ensures var t := Branch(KEYS, ArrayStart, [Branch(tag, StructStart, kids)] + rest);
            && Proper(t) && Editable(t) && Proper(EditKeys(t, s))
            && TreeBytes(EditKeys(t, s))
               == Enc(Element(KEYS, ArrayStart))
                  + ((Enc(Element(Anonymous, StructStart)) + SlotRest(kids, s)) + (ForestBytes(rest) + Enc(END)))
  {
    hide Enc, EditSlot;
    var first := Branch(tag, StructStart, kids);
    var t := Branch(KEYS, ArrayStart, [first] + rest);
    assert t.kids[0] == first && t.kids[1..] == rest;
    assert Proper(first);
    assert forall x :: x in [first] + rest ==> x == first || x in rest;
    assert Proper(t);
    EditKeysProper(t, s);
    EditSlotProper(kids, s);
    var slot := Branch(Anonymous, StructStart, EditSlot(kids, s));
    assert EditKeys(t, s).kids == [slot] + rest;
    assert ([slot] + rest)[1..] == rest;
    ConcatAssoc(TreeBytes(slot), ForestBytes(rest), Enc(END));
  }

  /** Writes the key array whose start has been read, with its first slot edited. */
  method EditKeysStream(w: Writer, rd: Reader, s: Slot) returns (ok: bool)
    requires rd.Valid()
    modifies w, rd
    ensures rd.Valid()
    ensures var r := ParseTree(rd.buf, old(rd.pos), Element(KEYS, ArrayStart));
            if r.Err? || !Editable(r.value.0) then !ok
            else
              && ok && rd.pos == r.value.1 && w.depth == old(w.depth)
              && Proper(EditKeys(r.value.0, s)) && w.buf == old(w.buf) + TreeBytes(EditKeys(r.value.0, s))
  {
    hide Read, Parse, Enc, ForestBytes, TreeBytes, SlotRest, EditKeys, ProperAll, Proper;
    w.Start(KEYS, ArrayStart);
    ArrayTree(rd.buf, rd.pos);
    var first := rd.Next();
    if first.Err? || first.value.None? { return false; }
    FirstKidStruct(rd.buf, old(rd.pos));
    if !first.value.value.value.StructStart? { return false; }
    w.Start(Anonymous, StructStart);
    ghost var kids := Parse(rd.buf, rd.pos);
    ok := EditSlotStream(w, rd, s);
    if !ok { return; }
    ghost var rest := Parse(rd.buf, rd.pos);
    var copied := CopyContainer(w, rd);
    if copied.Err? { return false; }
    KeysLayout(kids.value.0, rest.value.0, s, first.value.value.tag);
    ConcatFour(old(w.buf), Enc(Element(KEYS, ArrayStart)), Enc(Element(Anonymous, StructStart)),
               SlotRest(kids.value.0, s), ForestBytes(rest.value.0) + Enc(END));
  }

  lemma ConcatFour(a: bytes, b: bytes, c: bytes, d: bytes, e: bytes)
    ensures (((a + b) + c) + d) + e == a + (b + ((c + d) + e))
  {
  }

  lemma ArrayTree(buf: bytes, pos: nat)
    requires pos <= |buf|
    ensures var r := ParseTree(buf, pos, Element(KEYS, ArrayStart));
            (r.Err? <==> Parse(buf, pos).Err?)
            && (r.Ok? ==> r.value == (Branch(KEYS, ArrayStart, Parse(buf, pos).value.0), Parse(buf, pos).value.1))
    ensures Read(buf, pos).Err? || Read(buf, pos).value.None? ==> Parse(buf, pos).Err?
  {
    hide Read;
  }

  /** What has been written of the elements `done`: they hold no key array yet, or the edited one. */
  function Edited(done: seq<Tree>, s: Slot, seen: bool): Option<seq<Tree>> {
    if seen then SetSlot0(done, s) else if KeysAt(done) == |done| then Some(done) else None
  }

  lemma EmptyEdit(s: Slot)
    ensures Edited([], s, false) == Some([]) && ProperAll([]) && ForestBytes([]) == []
  {
  }

  lemma {:induction false} KeysAtConcat(a: seq<Tree>, b: seq<Tree>)
    ensures KeysAt(a + b) == if KeysAt(a) < |a| then KeysAt(a) else |a| + KeysAt(b)
  {
    if a == [] {
      assert a + b == b;
    } else {
      KeysAtConcat(a[1..], b);
      assert (a + b)[1..] == a[1..] + b;
    }
  }

  lemma SetSlot0Concat(a: seq<Tree>, b: seq<Tree>, s: Slot)
    requires KeysAt(a) < |a|
    ensures SetSlot0(a + b, s) ==
            match SetSlot0(a, s) case None => None case Some(r) => Some(r + b)
  {
    hide KeysAt, Editable, EditKeys;
    KeysAtConcat(a, b);
    var k := KeysAt(a);
    assert (a + b)[k] == a[k];
    if Editable(a[k]) {
      assert (a + b)[k := EditKeys(a[k], s)] == a[k := EditKeys(a[k], s)] + b;
    }
  }

  lemma SetSlot0Found(done: seq<Tree>, t: Tree, rest: seq<Tree>, s: Slot)
    requires KeysAt(done) == |done| && IsKeys(t)
    ensures SetSlot0(done + [t] + rest, s) == if Editable(t) then Some(done + [EditKeys(t, s)] + rest) else None
  {
    hide Editable, EditKeys;
    var ts := done + [t] + rest;
    assert forall j :: 0 <= j < |done| ==> ts[j] == done[j];
    hide KeysAt;
    KeysAtUnique(ts, |done|);
    if Editable(t) {
      assert ts[|done| := EditKeys(t, s)] == done + [EditKeys(t, s)] + rest;
    }
  }

  lemma AppendEdited(opening: bytes, done: seq<Tree>, t: Tree, s: Slot, seen: bool)
    requires Edited(done, s, seen).Some? && ProperAll(Edited(done, s, seen).value) && Proper(t)
    requires !seen && IsKeys(t) ==> Editable(t) && Proper(EditKeys(t, s))
    ensures var t' := if !seen && IsKeys(t) then EditKeys(t, s) else t;
            var e := Edited(done + [t], s, seen || IsKeys(t));
            && e.Some? && ProperAll(e.value)
            && (opening + ForestBytes(Edited(done, s, seen).value)) + TreeBytes(t') == opening + ForestBytes(e.value)
  {
    hide KeysAt, SetSlot0, TreeBytes, ForestBytes, ProperAll, Proper, EditKeys, Editable;
    var w := Edited(done, s, seen).value;
    var t' := if !seen && IsKeys(t) then EditKeys(t, s) else t;
    if seen {
      SetSlot0Positive(done, s);
      SetSlot0Concat(done, [t], s);
    } else if IsKeys(t) {
      SetSlot0Found(done, t, [], s);
      assert done + [t] + [] == done + [t] && done + [t'] + [] == done + [t'];
    } else {
      KeysAtConcat(done, [t]);
      KeysAtSingle(t);
    }
    ForestSnoc(w, t');
    ConcatAssoc(opening, ForestBytes(w), TreeBytes(t'));
  }

  lemma SetSlot0Positive(ts: seq<Tree>, s: Slot)
    requires SetSlot0(ts, s).Some?
    ensures KeysAt(ts) < |ts|
  {
  }

  lemma KeysAtSingle(t: Tree)
    requires !IsKeys(t)
    ensures KeysAt([t]) == 1
  {
    assert [t][1..] == [];
  }

  /** A first key array that cannot be edited makes the whole edit fail. */
  lemma NotEditable(blob: bytes, start: nat, pos: nat, done: seq<Tree>, t: Tree, s: Slot)
    requires KeysAt(done) == |done| && IsKeys(t) && !Editable(t)
    requires Progress(blob, start, pos, done + [t])
    ensures Parse(blob, start).Ok? ==> SetSlot0(Parse(blob, start).value.0, s).None?
  {
    hide Parse;
    if Parse(blob, pos).Ok? { SetSlot0Found(done, t, Parse(blob, pos).value.0, s); }
  }

  /** Copies a record with its first slot edited. */
  method SlotStream(blob: bytes, s: Slot) returns (r: Option<bytes>)
    requires |blob| < 0x8000_0000_0000_0000
    ensures r == KeysetWithSlot0(blob, s)
  {
    hide Read, Parse, ParseTree, Progress, Enc, TreeBytes, ForestBytes, ProperAll, Proper;
    hide KeysAt, EditKeys, Editable, SetSlot0;
    var rd := new Reader(blob);
    var first := rd.Next();
    if first.Err? || first.value.None? || !first.value.value.value.StructStart? { return None; }
    var w := new Writer();
    w.Start(Anonymous, StructStart);
    var seen := false;
    ghost var start, done: seq<Tree> := rd.pos, [];
    ghost var opening := w.buf;
    assert opening == Enc(Element(Anonymous, StructStart));
    ProgressStart(blob, start);
    EmptyEdit(s);
    assert opening + [] == opening;
    while true
      invariant rd.Valid() && rd.buf == blob && Progress(blob, start, rd.pos, done)
      invariant w.depth == 1 && Edited(done, s, seen).Some?
      invariant ProperAll(Edited(done, s, seen).value)
      invariant w.buf == opening + ForestBytes(Edited(done, s, seen).value)
      decreases |blob| - rd.pos
    {
      ProgressStep(blob, start, rd.pos, done);
      var el := rd.Next();
      if el.Err? || el.value.None? { return None; }
      var e := el.value.value;
      if e.value.ContainerEnd? { break; }
      ghost var t := ParseTree(blob, rd.pos, e);
      OtherTree(blob, rd.pos, e);
      if e.tag == KEYS && e.value.ArrayStart? && !seen {
        var edited := EditKeysStream(w, rd, s);
        if !edited {
          if t.Ok? { NotEditable(blob, start, t.value.1, done, t.value.0, s); }
          return None;
        }
      } else {
        var copied := CopyValue(w, rd, e.tag, e.value);
        if copied.Err? { return None; }
      }
      AppendEdited(opening, done, t.value.0, s, seen);
      seen := seen || (e.tag == KEYS && e.value.ArrayStart?);
      done := done + [t.value.0];
    }
    if !seen {
      NoKeys(done, s);
      return None;
    }
    w.EndContainer();
    RecordLayout(Edited(done, s, true).value);
    ConcatAssoc(opening, ForestBytes(Edited(done, s, true).value), Enc(END));
    return Some(w.buf);
  }

  lemma NoKeys(ts: seq<Tree>, s: Slot)
    requires KeysAt(ts) == |ts|
    ensures SetSlot0(ts, s).None?
  {
  }
}
