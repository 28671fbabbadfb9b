/** Reading the first key of a keyset record (crates/mat-controller/src/kvs.rs). */
module KeysetReader {
  import opened Wrappers
  import opened TlvCodec
  import opened TlvStream
  import opened TlvTrees
  import opened Records
  import opened KeysetRecord

  const COUNT := Context(2)

  /** The operational key of a slot and its hash, if it carries one. */
  datatype Entry = Entry(key: Key16, hash: Option<uint16>)

  datatype SlotScan = SlotScan(key: Option<Key16>, hash: Option<uint16>)

  /** One field of a slot; `None` for a hash out of range or a key of the wrong length. */
  function ScanField(a: SlotScan, t: Tree): Option<SlotScan> {
    if IsUint(t, HASH) then (if t.value.u < 0x1_0000 then Some(a.(hash := Some(t.value.u))) else None)
    else if IsBytes(t, KEY) then (if |t.value.data| == 16 then Some(a.(key := Some(t.value.data))) else None)
    else Some(a)
  }

  function ScanSlot(ts: seq<Tree>): Option<SlotScan> {
    if ts == [] then Some(SlotScan(None, None))
    else
      match ScanSlot(ts[..|ts| - 1])
      case None => None
      case Some(a) => ScanField(a, ts[|ts| - 1])
  }

  function SlotEntry(ts: seq<Tree>): Option<Entry> {
    match ScanSlot(ts)
    case None => None
    case Some(a) => if a.key.Some? then Some(Entry(a.key.value, a.hash)) else None
  }

  datatype RecordScan = RecordScan(count: Option<uint64>, entry: Option<Entry>)

  /** One element of the record: the number of keys, or a key array whose first slot is read. */
  function ScanElement(a: RecordScan, t: Tree): Option<RecordScan> {
    if IsUint(t, COUNT) then Some(a.(count := Some(t.value.u)))
    else if IsKeys(t) then
      if !Editable(t) then None
      else (match SlotEntry(t.kids[0].kids) case None => None case Some(e) => Some(a.(entry := Some(e))))
    else Some(a)
  }

  function ScanRecord(ts: seq<Tree>): Option<RecordScan> {
    if ts == [] then Some(RecordScan(None, None))
    else
      match ScanRecord(ts[..|ts| - 1])
      case None => None
      case Some(a) => ScanElement(a, ts[|ts| - 1])
  }

  /** The first key of a record; `None` stands for every kind of bad keyset. */
  function FirstEntry(ts: seq<Tree>): Option<Entry> {
    match ScanRecord(ts)
    case None => None
    case Some(a) => if a.count.Some? && a.count.value >= 1 then a.entry else None
  }

  function KeysetFirstEntry(blob: bytes): Option<Entry> {
    match Fields(blob) case None => None case Some(ts) => FirstEntry(ts)
  }

  // ---------------------------------------------------------------- what an edited record yields

  lemma {:induction false} ScanUniform(ts: seq<Tree>, s: Slot)
    requires forall k :: 0 <= k < |ts| ==> ReplaceOne(ts[k], s) == ts[k]
    ensures ScanSlot(ts) == Some(SlotScan(if AnyBytes(ts, KEY) then Some(s.key) else None,
                                          if AnyUint(ts, HASH) then Some(s.hash) else None))
  {
    if ts != [] {
      var front, last := ts[..|ts| - 1], ts[|ts| - 1];
      assert front + [last] == ts;
      ScanUniform(front, s);
      AnySnoc(front, last, KEY);
      AnySnoc(front, last, HASH);
      assert ReplaceOne(last, s) == last;
      hide AnyUint, AnyBytes;
    }
  }

  lemma EditedSlotEntry(ts: seq<Tree>, s: Slot)
    ensures SlotEntry(EditSlot(ts, s)) == Some(Entry(s.key, Some(s.hash)))
  {
    hide ScanSlot, Missing, AnyUint, AnyBytes;
    var r := EditSlot(ts, s);
    ReplaceMissing(ts, s, s);
    forall k | 0 <= k < |r|
      ensures ReplaceOne(r[k], s) == r[k]
    {
      if k < |ts| {
        assert r[k] == ReplaceOne(ts[k], s);
      } else {
        assert r[k] == Missing(ts, s)[k - |ts|];
      }
    }
    ScanUniform(r, s);
    EditedSlotIsComplete(ts, s);
  }

  /** Exactly one key array. */
  predicate OneKeys(ts: seq<Tree>) {
    exists k :: 0 <= k < |ts| && IsKeys(ts[k]) && forall j :: 0 <= j < |ts| && IsKeys(ts[j]) ==> j == k
  }

  /** The last key count of a record. */
  function CountOf(ts: seq<Tree>): Option<uint64> {
    if ts == [] then None
    else if IsUint(ts[|ts| - 1], COUNT) then Some(ts[|ts| - 1].value.u)
    else CountOf(ts[..|ts| - 1])
  }

  lemma {:induction false} ScanWithoutKeys(ts: seq<Tree>)
    requires forall j :: 0 <= j < |ts| ==> !IsKeys(ts[j])
    ensures ScanRecord(ts) == Some(RecordScan(CountOf(ts), None))
  {
    if ts != [] { ScanWithoutKeys(ts[..|ts| - 1]); }
  }

  lemma {:induction false} ScanWithOneKeys(ts: seq<Tree>, k: nat, e: Entry)
    requires k < |ts| && IsKeys(ts[k]) && Editable(ts[k]) && SlotEntry(ts[k].kids[0].kids) == Some(e)
    requires forall j :: 0 <= j < |ts| && IsKeys(ts[j]) ==> j == k
    ensures ScanRecord(ts) == Some(RecordScan(CountOf(ts), Some(e)))
  {
    hide SlotEntry;
    var front := ts[..|ts| - 1];
    if k == |ts| - 1 {
      ScanWithoutKeys(front);
    } else {
      assert front[k] == ts[k];
      ScanWithOneKeys(front, k, e);
    }
  }

  /** A record with one key array yields exactly the key and hash put into its first slot, provided it says
      it has at least one key. */
  lemma FirstEntryOfEdit(ts: seq<Tree>, s: Slot)
    requires OneKeys(ts) && SetSlot0(ts, s).Some?
    ensures var n := CountOf(ts);
            FirstEntry(SetSlot0(ts, s).value)
            == if n.Some? && n.value >= 1 then Some(Entry(s.key, Some(s.hash))) else None
  {
    hide EditSlot, SlotEntry, ScanRecord;
    SetSlot0Keeps(ts, s);
    var k, r := KeysAt(ts), SetSlot0(ts, s).value;
    EditedSlotEntry(ts[k].kids[0].kids, s);
    assert r[k].kids[0].kids == EditSlot(ts[k].kids[0].kids, s);
    ScanWithOneKeys(r, k, Entry(s.key, Some(s.hash)));
    CountUnchanged(ts, r, k);
  }

  lemma {:induction false} CountUnchanged(a: seq<Tree>, b: seq<Tree>, k: nat)
    requires |a| == |b| && forall j :: 0 <= j < |a| && j != k ==> a[j] == b[j]
    requires k < |a| ==> IsKeys(a[k]) && IsKeys(b[k])
    ensures CountOf(a) == CountOf(b)
    decreases |a|
  {
    if a != [] { CountUnchanged(a[..|a| - 1], b[..|b| - 1], k); }
  }

  /** Relinking a record does not change what its first key is. */
  lemma {:induction false} ScanAfterRelink(ts: seq<Tree>, n: uint16)
    ensures ScanRecord(SetNext(ts, n)) == ScanRecord(ts)
  {
    if ts != [] {
      var m := |ts| - 1;
      var front := ts[..m];
      ScanAfterRelink(front, n);
      assert front + [ts[m]] == ts;
      SetNextSnoc(front, ts[m], n);
      assert SetNext(ts, n)[..m] == SetNext(front, n);
    }
  }

  /** The first slot of a stored record, whatever its key count. */
  function Slot0(blob: bytes): Option<Entry> {
    match Fields(blob)
    case None => None
    case Some(ts) =>
      var k := KeysAt(ts);
      if k < |ts| && Editable(ts[k]) then SlotEntry(ts[k].kids[0].kids) else None
  }

  lemma {:induction false} KeysAtRelinked(ts: seq<Tree>, n: uint16)
    ensures KeysAt(SetNext(ts, n)) == KeysAt(ts)
  {
    if ts != [] {
      KeysAtRelinked(ts[1..], n);
      assert SetNext(ts, n)[1..] == SetNext(ts[1..], n);
    }
  }

  lemma Slot0Relinked(blob: bytes, n: uint16)
    requires KeysetWithNext(blob, n).Some?
    ensures Slot0(KeysetWithNext(blob, n).value) == Slot0(blob)
  {
    hide Fields, StructBytes, HasNext, KeysAt, SlotEntry, ProperAll;
    FieldsAfterNext(blob, n);
    KeysAtRelinked(Fields(blob).value, n);
  }

  lemma Slot0Edited(blob: bytes, s: Slot)
    requires KeysetWithSlot0(blob, s).Some?
    ensures Slot0(KeysetWithSlot0(blob, s).value) == Some(Entry(s.key, Some(s.hash)))
  {
    hide Fields, StructBytes, KeysAt, SlotEntry, ProperAll, EditSlot;
    FieldsAfterSlot0(blob, s);
    var ts := Fields(blob).value;
    SetSlot0Keeps(ts, s);
    var k := KeysAt(ts);
    EditedSlotEntry(ts[k].kids[0].kids, s);
    assert EditKeys(ts[k], s).kids[0].kids == EditSlot(ts[k].kids[0].kids, s);
  }

  // ---------------------------------------------------------------- the streaming reader

  method ParseKeyStruct(rd: Reader) returns (r: Option<Entry>)
    requires rd.Valid()
    modifies rd
    ensures rd.Valid()
    ensures r.Some? <==>
            Read(rd.buf, old(rd.pos)).Ok? && Read(rd.buf, old(rd.pos)).value.Some?
            && Read(rd.buf, old(rd.pos)).value.value.0.value.StructStart?
            && Parse(rd.buf, Read(rd.buf, old(rd.pos)).value.value.1).Ok?
            && SlotEntry(Parse(rd.buf, Read(rd.buf, old(rd.pos)).value.value.1).value.0).Some?
    ensures r.Some? ==>
              var (kids, end) := Parse(rd.buf, Read(rd.buf, old(rd.pos)).value.value.1).value;
              r == SlotEntry(kids) && rd.pos == end
  {
    hide Read, Parse, Progress, ScanSlot;
    var first := rd.Next();
    if first.Err? || first.value.None? || !first.value.value.value.StructStart? { return None; }
    var key: Option<Key16>, hash: Option<uint16> := None, None;
    ghost var start, done: seq<Tree> := rd.pos, [];
    ProgressStart(rd.buf, start);
    EmptyScan();
    while true
      invariant rd.Valid() && start <= rd.pos && Progress(rd.buf, start, rd.pos, done)
      invariant ScanSlot(done) == Some(SlotScan(key, hash))
      decreases |rd.buf| - rd.pos
    {
      ProgressStep(rd.buf, start, rd.pos, done);
      var el := rd.Next();
      if el.Err? || el.value.None? { return None; }
      var e := el.value.value;
      if e.value.ContainerEnd? { break; }
      ghost var t := ParseTree(rd.buf, rd.pos, e);
      if e.tag == HASH && e.value.Uint? {
        if e.value.u >= 0x1_0000 {
          BadSlot(rd.buf, start, t.value.1, done, t.value.0);
          return None;
        }
        hash := Some(e.value.u);
      } else if e.tag == KEY && e.value.Bytes? {
        if |e.value.data| != 16 {
          BadSlot(rd.buf, start, t.value.1, done, t.value.0);
          return None;
        }
        key := Some(e.value.data);
      } else if IsStart(e.value) {
        var skipped := SkipContainer(rd);
        if skipped.Err? { return None; }
      }
      ScanSlotSnoc(done, t.value.0);
      done := done + [t.value.0];
    }
    if key.None? { return None; }
    return Some(Entry(key.value, hash));
  }

  lemma EmptyScan()
    ensures ScanSlot([]) == Some(SlotScan(None, None)) && ScanRecord([]) == Some(RecordScan(None, None))
  {
  }

  lemma ScanSlotSnoc(ts: seq<Tree>, t: Tree)
    ensures ScanSlot(ts + [t]) == match ScanSlot(ts) case None => None case Some(a) => ScanField(a, t)
  {
    assert (ts + [t])[..|ts|] == ts;
  }

  lemma {:induction false} ScanSlotFails(a: seq<Tree>, b: seq<Tree>)
    requires ScanSlot(a).None?
    ensures ScanSlot(a + b).None?
    decreases |b|
  {
    if b == [] {
      assert a + b == a;
    } else {
      var front := b[..|b| - 1];
      ScanSlotFails(a, front);
      assert a + b == (a + front) + [b[|b| - 1]];
      ScanSlotSnoc(a + front, b[|b| - 1]);
    }
  }

  lemma BadSlot(buf: bytes, start: nat, pos: nat, done: seq<Tree>, t: Tree)
    requires Progress(buf, start, pos, done + [t]) && ScanSlot(done).Some?
    requires ScanField(ScanSlot(done).value, t).None?
    ensures Parse(buf, start).Ok? ==> SlotEntry(Parse(buf, start).value.0).None?
  {
    hide Parse;
    ScanSlotSnoc(done, t);
    if Parse(buf, pos).Ok? { ScanSlotFails(done + [t], Parse(buf, pos).value.0); }
  }

  method ParseKeysetFirstEntry(blob: bytes) returns (r: Option<Entry>)
    requires |blob| < 0x8000_0000_0000_0000
    ensures r == KeysetFirstEntry(blob)
  {
    hide Read, Parse, Progress, ScanRecord, SlotEntry;
    var rd := new Reader(blob);
    var first := rd.Next();
    if first.Err? || first.value.None? || !first.value.value.value.StructStart? { return None; }
    var count: Option<uint64>, entry: Option<Entry> := None, None;
    ghost var start, done: seq<Tree> := rd.pos, [];
    ProgressStart(blob, start);
    EmptyScan();
    while true
      invariant rd.Valid() && rd.buf == blob && Progress(blob, start, rd.pos, done)
      invariant ScanRecord(done) == Some(RecordScan(count, entry))
      decreases |blob| - rd.pos
    {
      ProgressStep(blob, start, rd.pos, done);
      var el := rd.Next();
      if el.Err? || el.value.None? { return None; }
      var e := el.value.value;
      if e.value.ContainerEnd? { break; }
      ghost var t := ParseTree(blob, rd.pos, e);
      if e.tag == COUNT && e.value.Uint? {
        count := Some(e.value.u);
      } else if e.tag == KEYS && e.value.ArrayStart? {
        ReadFails(blob, rd.pos);
        if t.Ok? { ArrayScan(blob, rd.pos, t.value.0); }
        ghost var arrayAt := rd.pos;
        var read := ParseKeyStruct(rd);
        if read.None? {
          if t.Ok? { BadArray(blob, start, t.value.1, done, t.value.0); }
          return None;
        }
        FirstKidStruct(blob, arrayAt);
        var skipped := SkipContainer(rd);
        if skipped.Err? { return None; }
        entry := read;
      } else if IsStart(e.value) {
        var skipped := SkipContainer(rd);
        if skipped.Err? { return None; }
      }
      ScanRecordSnoc(done, t.value.0);
      done := done + [t.value.0];
    }
    if count.None? || count.value < 1 { return None; }
    return entry;
  }

  lemma ReadFails(buf: bytes, pos: nat)
    ensures Read(buf, pos).Err? || Read(buf, pos).value.None? ==> Parse(buf, pos).Err?
  {
    hide Read;
  }

  /** What the first element of a key array says about the array as a whole. */
  lemma ArrayScan(buf: bytes, pos: nat, t: Tree)
    requires Parse(buf, pos).Ok? && t == Branch(KEYS, ArrayStart, Parse(buf, pos).value.0)
    ensures Read(buf, pos).Ok? && Read(buf, pos).value.Some?
    ensures var (e, next) := Read(buf, pos).value.value;
            if !e.value.StructStart? then !Editable(t)
            else Editable(t) && Parse(buf, next).Ok? && Parse(buf, next).value.0 == t.kids[0].kids
  {
    ReadFails(buf, pos);
    FirstKidStruct(buf, pos);
    hide Read;
    var (e, next) := Read(buf, pos).value.value;
    if e.value.StructStart? { KidsParsed(buf, pos); }
  }

  lemma KidsParsed(buf: bytes, pos: nat)
    requires Parse(buf, pos).Ok? && Read(buf, pos).Ok? && Read(buf, pos).value.Some?
    requires Read(buf, pos).value.value.0.value.StructStart?
    ensures Parse(buf, Read(buf, pos).value.value.1).Ok?
  {
    hide Read;
  }

  lemma ScanRecordSnoc(ts: seq<Tree>, t: Tree)
    ensures ScanRecord(ts + [t]) == match ScanRecord(ts) case None => None case Some(a) => ScanElement(a, t)
  {
    assert (ts + [t])[..|ts|] == ts;
  }

  lemma {:induction false} ScanRecordFails(a: seq<Tree>, b: seq<Tree>)
    requires ScanRecord(a).None?
    ensures ScanRecord(a + b).None?
    decreases |b|
  {
    if b == [] {
      assert a + b == a;
    } else {
      var front := b[..|b| - 1];
      ScanRecordFails(a, front);
      assert a + b == (a + front) + [b[|b| - 1]];
      ScanRecordSnoc(a + front, b[|b| - 1]);
    }
  }

  lemma BadArray(buf: bytes, start: nat, pos: nat, done: seq<Tree>, t: Tree)
    requires Progress(buf, start, pos, done + [t]) && ScanRecord(done).Some?
    requires ScanElement(ScanRecord(done).value, t).None?
    ensures Parse(buf, start).Ok? ==> FirstEntry(Parse(buf, start).value.0).None?
  {
    hide Parse, ScanElement;
    ScanRecordSnoc(done, t);
    if Parse(buf, pos).Ok? { ScanRecordFails(done + [t], Parse(buf, pos).value.0); }
  }
}
