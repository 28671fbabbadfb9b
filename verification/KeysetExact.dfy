/** Exactly which keyset records yield a first key, and which one (crates/mat-controller/src/kvs.rs). */
module KeysetExact {
  import opened Wrappers
  import opened TlvCodec
  import opened TlvTrees
  import opened Records
  import opened KeysetRecord
  import opened KeysetReader
  import opened TreesExact

  function OpKeys(): Tree -> bool { t => IsBytes(t, Context(6)) }

  function KeyArrays(): Tree -> bool { t => IsKeys(t) }

  // ---------------------------------------------------------------- one slot

  /** A hash fits 16 bits, and a key has 16 bytes. */
  predicate SlotField(t: Tree) {
    (IsUint(t, Context(5)) ==> t.value.u < 0x1_0000) && (IsBytes(t, Context(6)) ==> |t.value.data| == 16)
  }

  /** The last key and the last hash, if there is one. */
  ghost predicate SlotHolds(ts: seq<Tree>, e: Entry) {
    && (forall k :: 0 <= k < |ts| ==> SlotField(ts[k]))
    && LastOf(ts, OpKeys(), Leaf(Context(6), Bytes(e.key)))
    && if e.hash.Some? then LastOf(ts, Numbers(5), Leaf(Context(5), Uint(e.hash.value))) else NoneOf(ts, Numbers(5))
  }

  /** What was found so far is the last of each. */
  ghost predicate SlotSeen(ts: seq<Tree>, a: SlotScan) {
    && (forall b: Key16 :: a.key == Some(b) <==> LastOf(ts, OpKeys(), Leaf(Context(6), Bytes(b))))
    && (forall h: uint16 :: a.hash == Some(h) <==> LastOf(ts, Numbers(5), Leaf(Context(5), Uint(h))))
    && (a.hash.None? <==> NoneOf(ts, Numbers(5)))
  }

  lemma FieldIs(a: SlotScan, t: Tree)
    ensures ScanField(a, t).Some? <==> SlotField(t)
  {
  }

  lemma SlotSnoc(ts: seq<Tree>, t: Tree, a: SlotScan)
    requires SlotSeen(ts, a) && SlotField(t)
    ensures ScanField(a, t).Some? && SlotSeen(ts + [t], ScanField(a, t).value)
  {
    var b := ScanField(a, t).value;
    LastSnoc(ts, t, Numbers(5), t);
    forall k: Key16
      ensures b.key == Some(k) <==> LastOf(ts + [t], OpKeys(), Leaf(Context(6), Bytes(k)))
    {
      LastSnoc(ts, t, OpKeys(), Leaf(Context(6), Bytes(k)));
    }
    forall h: uint16
      ensures b.hash == Some(h) <==> LastOf(ts + [t], Numbers(5), Leaf(Context(5), Uint(h)))
    {
      LastSnoc(ts, t, Numbers(5), Leaf(Context(5), Uint(h)));
    }
    hide LastOf, NoneOf;
  }

  lemma {:induction false} SlotScanned(ts: seq<Tree>)
    ensures ScanSlot(ts).Some? <==> forall k :: 0 <= k < |ts| ==> SlotField(ts[k])
    ensures ScanSlot(ts).Some? ==> SlotSeen(ts, ScanSlot(ts).value)
    decreases |ts|
  {
    hide ScanField, SlotField;
    if ts != [] {
      hide SlotSeen;
      var n := |ts| - 1;
      SlotScanned(ts[..n]);
      assert ts == ts[..n] + [ts[n]];
      if ScanSlot(ts[..n]).Some? {
        FieldIs(ScanSlot(ts[..n]).value, ts[n]);
        if SlotField(ts[n]) { SlotSnoc(ts[..n], ts[n], ScanSlot(ts[..n]).value); }
      }
    }
  }

  /** A slot yields a key and hash exactly if they are its last ones, all keys have 16 bytes and all hashes 16 bits. */
  lemma SlotIsExact(ts: seq<Tree>, e: Entry)
    ensures SlotEntry(ts) == Some(e) <==> SlotHolds(ts, e)
  {
    SlotScanned(ts);
    hide ScanSlot, SlotField, LastOf, NoneOf;
    if ScanSlot(ts).Some? && ScanSlot(ts).value.key.Some? {
      var k := ScanSlot(ts).value.key.value;
      assert ScanSlot(ts).value.key == Some(k);
    }
    if e.hash.Some? { assert e.hash == Some(e.hash.value); }
  }

  // ---------------------------------------------------------------- the record

  /** The first slot of the array is a struct that holds `e`. */
  ghost predicate FirstSlot(t: Tree, e: Entry) {
    t.Branch? && t.kids != [] && IsStruct(t.kids[0]) && SlotHolds(t.kids[0].kids, e)
  }

  /** A key array starts with a slot that yields a key. */
  ghost predicate ElementOk(t: Tree) { IsKeys(t) ==> exists e: Entry :: FirstSlot(t, e) }

  /** The first slot of the last key array is `e`, all key arrays can be read, and the last count is at least 1. */
  ghost predicate Yields(ts: seq<Tree>, e: Entry) {
    && (forall k :: 0 <= k < |ts| ==> ElementOk(ts[k]))
    && (exists n: uint64 :: n >= 1 && LastOf(ts, Numbers(2), Leaf(Context(2), Uint(n))))
    && LastSlot(ts, e)
  }

  ghost predicate LastSlot(ts: seq<Tree>, e: Entry) { exists t :: LastOf(ts, KeyArrays(), t) && FirstSlot(t, e) }

  ghost predicate RecordSeen(ts: seq<Tree>, a: RecordScan) {
    && (forall n: uint64 :: a.count == Some(n) <==> LastOf(ts, Numbers(2), Leaf(Context(2), Uint(n))))
    && if a.entry.None? then NoneOf(ts, KeyArrays()) else LastSlot(ts, a.entry.value)
  }

  lemma FirstSlotIs(t: Tree, e: Entry)
    requires Editable(t)
    ensures SlotEntry(t.kids[0].kids) == Some(e) <==> FirstSlot(t, e)
  {
    SlotIsExact(t.kids[0].kids, e);
    hide SlotEntry, SlotHolds;
  }

  lemma ElementIs(a: RecordScan, t: Tree)
    ensures ScanElement(a, t).Some? <==> ElementOk(t)
    ensures ElementOk(t) && IsUint(t, Context(2)) ==> ScanElement(a, t).value == a.(count := Some(t.value.u))
    ensures ElementOk(t) && IsKeys(t) ==>
              exists e: Entry :: FirstSlot(t, e) && ScanElement(a, t).value == a.(entry := Some(e))
    ensures ElementOk(t) && !IsUint(t, Context(2)) && !IsKeys(t) ==> ScanElement(a, t).value == a
  {
    hide SlotEntry, SlotHolds;
    if IsKeys(t) {
      if Editable(t) {
        forall e: Entry
          ensures SlotEntry(t.kids[0].kids) == Some(e) <==> FirstSlot(t, e)
        {
          FirstSlotIs(t, e);
        }
        hide FirstSlot;
        if SlotEntry(t.kids[0].kids).Some? {
          assert FirstSlot(t, SlotEntry(t.kids[0].kids).value);
        }
      }
    }
  }

  lemma RecordSnoc(ts: seq<Tree>, t: Tree, a: RecordScan)
    requires RecordSeen(ts, a) && ElementOk(t)
    ensures ScanElement(a, t).Some? && RecordSeen(ts + [t], ScanElement(a, t).value)
  {
    ElementIs(a, t);
    var b := ScanElement(a, t).value;
    hide ScanElement, FirstSlot, ElementOk;
    forall n: uint64
      ensures b.count == Some(n) <==> LastOf(ts + [t], Numbers(2), Leaf(Context(2), Uint(n)))
    {
      LastSnoc(ts, t, Numbers(2), Leaf(Context(2), Uint(n)));
    }
    forall u: Tree
      ensures LastOf(ts + [t], KeyArrays(), u) <==> if IsKeys(t) then u == t else LastOf(ts, KeyArrays(), u)
      ensures NoneOf(ts + [t], KeyArrays()) <==> !IsKeys(t) && NoneOf(ts, KeyArrays())
    {
      LastSnoc(ts, t, KeyArrays(), u);
    }
    hide LastOf, NoneOf;
    if IsKeys(t) {
      var e: Entry :| FirstSlot(t, e) && b == a.(entry := Some(e));
      assert LastOf(ts + [t], KeyArrays(), t);
    }
  }

  lemma {:induction false} RecordScanned(ts: seq<Tree>)
    ensures ScanRecord(ts).Some? <==> forall k :: 0 <= k < |ts| ==> ElementOk(ts[k])
    ensures ScanRecord(ts).Some? ==> RecordSeen(ts, ScanRecord(ts).value)
    decreases |ts|
  {
    hide ScanElement, ElementOk, LastOf, NoneOf, LastSlot;
    if ts != [] {
      hide RecordSeen;
      var n := |ts| - 1;
      RecordScanned(ts[..n]);
      assert ts == ts[..n] + [ts[n]];
      assert forall k :: 0 <= k < n ==> ts[..n][k] == ts[k];
      if ScanRecord(ts[..n]).Some? {
        ElementIs(ScanRecord(ts[..n]).value, ts[n]);
        if ElementOk(ts[n]) { RecordSnoc(ts[..n], ts[n], ScanRecord(ts[..n]).value); }
      }
    } else {
      assert RecordSeen([], RecordScan(None, None)) by { NothingSeen(); }
    }
  }

  lemma NothingSeen()
    ensures RecordSeen([], RecordScan(None, None))
  {
  }

  lemma OneSlot(ts: seq<Tree>, d: Entry, e: Entry)
    requires LastSlot(ts, d) && LastSlot(ts, e)
    ensures d == e && !NoneOf(ts, KeyArrays())
  {
    hide LastOf, NoneOf, SlotHolds;
    var t :| LastOf(ts, KeyArrays(), t) && FirstSlot(t, d);
    var u :| LastOf(ts, KeyArrays(), u) && FirstSlot(u, e);
    OneLast(ts, KeyArrays(), t, u);
    SlotIsExact(t.kids[0].kids, d);
    SlotIsExact(t.kids[0].kids, e);
    hide SlotEntry;
  }

  lemma EntryIsExact(ts: seq<Tree>, e: Entry)
    ensures FirstEntry(ts) == Some(e) <==> Yields(ts, e)
  {
    hide ScanRecord, ElementOk, LastOf, NoneOf, LastSlot;
    RecordScanned(ts);
    if FirstEntry(ts) == Some(e) {
      var n := ScanRecord(ts).value.count.value;
      assert ScanRecord(ts).value.count == Some(n);
    }
    if Yields(ts, e) {
      var n: uint64 :| n >= 1 && LastOf(ts, Numbers(2), Leaf(Context(2), Uint(n)));
      var a := ScanRecord(ts).value;
      assert a.count == Some(n);
      OneSlot(ts, e, e);
      OneSlot(ts, e, a.entry.value);
    }
  }

  /** A stored record yields a key and hash exactly if its key arrays can all be read, it counts at least one key, and
      they are those of the first slot of the last key array. */
  lemma FirstEntryIsExact(blob: bytes, e: Entry)
    ensures KeysetFirstEntry(blob) == Some(e) <==> Fields(blob).Some? && Yields(Fields(blob).value, e)
  {
    hide Fields, FirstEntry, Yields;
    if Fields(blob).Some? { EntryIsExact(Fields(blob).value, e); }
  }
}
