/** The group commands on the text of the key-value file (crates/mat-controller/src/group_settings.rs,
    crates/mat-controller/src/kvs.rs): what they do to the store is what the file says afterwards. */
module GroupFile {
  import opened Wrappers
  import opened KvsLines
  import opened Chains
  import opened GroupStore
  import opened KeyNames
  import opened KvsTransaction
  import opened GroupView
  import opened GroupEditor
  import opened GroupTables
  import opened GroupSettings
  import IpkRotation

  /** No key has two lines. */
  ghost predicate OneLineEach(sec: seq<string>) {
    forall j, k :: 0 <= j < k < |sec| && KeyOf(sec[j]).Some? ==> KeyOf(sec[j]) != KeyOf(sec[k])
  }

  /** What is asked of Base64, for every value. */
  ghost predicate AllLawful(cd: Codec) { forall b: bytes :: Lawful(cd, b) }

  /** The text is a file that holds the store `m`. */
  ghost predicate InText(text: string, cd: Codec, m: Store) {
    && Open(text).Some?
    && Holds(Section(Open(text).value), cd, m) && OneLineEach(Section(Open(text).value))
  }

  /** A section holds at most one store. */
  lemma HoldsOne(sec: seq<string>, cd: Codec, m: Store, m': Store)
    requires Holds(sec, cd, m) && Holds(sec, cd, m')
    ensures m == m'
  {
    hide CellOf;
    forall k: Key
      ensures (k in m <==> k in m') && (k in m ==> m[k] == m'[k])
    {
      assert CellOf(sec, cd, k) == if k in m then Some(m[k]) else None;
      assert CellOf(sec, cd, k) == if k in m' then Some(m'[k]) else None;
    }
  }

  // ---------------------------------------------------------------- edits of the text

  function EditLine(p: Opened, cd: Codec, e: Edit): (q: Opened)
    requires p.start <= p.end <= |p.lines|
    ensures q.start <= q.end <= |q.lines|
  {
    match e
    case Put(k, b) => SetLine(p, Name(k), Name(k) + ['='] + cd.encode(b))
    case Erase(k) => DropLine(p, Name(k))
  }

  function EditLines(p: Opened, cd: Codec, edits: seq<Edit>): (q: Opened)
    requires p.start <= p.end <= |p.lines|
    ensures q.start <= q.end <= |q.lines|
  {
    if edits == [] then p else EditLine(EditLines(p, cd, edits[..|edits| - 1]), cd, edits[|edits| - 1])
  }

  /** The text a transaction with these edits writes back. */
  function Rewritten(text: string, cd: Codec, edits: seq<Edit>): string {
    match Open(text)
    case None => text
    case Some(p) =>
      var q := EditLines(p, cd, edits);
      Body(q.lines, q.trailing)
  }

  lemma PutKeepsOneLine(p: Opened, cd: Codec, k: Key, b: bytes)
    requires WellPlaced(p) && OneLineEach(Section(p)) && Lawful(cd, b)
    ensures var q := SetLine(p, Name(k), Name(k) + ['='] + cd.encode(b));
            WellPlaced(q) && OneLineEach(Section(q))
  {
    NameIsGood(k);
    PlacedLines(p);
    hide Name;
    SetSection(p, Name(k), cd.encode(b));
    LineSays(Name(k), cd.encode(b));
    hide WellPlaced, SetLine, Section, KeyOf, RawOf, GoodKey, LineOf, OneLineEach;
    PutInSection(Section(p), Name(k), Name(k) + ['='] + cd.encode(b));
  }

  lemma PutInSection(sec: seq<string>, key: string, line: string)
    requires OneLineEach(sec) && KeyOf(line) == Some(key)
    ensures LineOf(sec, key) < |sec| ==> OneLineEach(sec[LineOf(sec, key) := line])
    ensures LineOf(sec, key) >= |sec| ==> OneLineEach(sec + [line])
  {
    FirstLineOf(sec, key);
    hide KeyOf, LineOf;
  }

  /** The first line for a key is one, and no line before it is. */
  lemma FirstLineOf(sec: seq<string>, key: string)
    ensures var n := LineOf(sec, key);
            && n <= |sec| && (n < |sec| ==> KeyOf(sec[n]) == Some(key))
            && forall j :: 0 <= j < n ==> KeyOf(sec[j]) != Some(key)
  {
    hide KeyOf;
    assert forall j :: 0 <= j < LineOf(sec, key) ==> !Says(key)(sec[j]);
  }

  lemma EraseKeepsOneLine(p: Opened, k: Key)
    requires WellPlaced(p) && OneLineEach(Section(p))
    ensures var q := DropLine(p, Name(k));
            WellPlaced(q) && OneLineEach(Section(q))
    ensures var i := LineOf(Section(p), Name(k));
            forall j :: i < j < |Section(p)| ==> KeyOf(Section(p)[j]) != Some(Name(k))
  {
    hide Name, KeyOf, First;
    PlacedLines(p);
    hide WellPlaced;
    var sec := Section(p);
    FirstLineOf(sec, Name(k));
    if LineOf(sec, Name(k)) < |sec| {
      DroppedSection(p, Name(k));
      WithoutOne(sec, LineOf(sec, Name(k)));
    }
  }

  lemma WithoutOne(sec: seq<string>, i: nat)
    requires i < |sec| && OneLineEach(sec)
    ensures OneLineEach(sec[..i] + sec[i + 1..])
  {
    hide KeyOf;
    var r := sec[..i] + sec[i + 1..];
    assert forall j :: 0 <= j < |r| ==> r[j] == sec[if j < i then j else j + 1];
  }

  /** One edit of the text is that edit of the store. */
  lemma EditRefines(p: Opened, cd: Codec, m: Store, e: Edit)
    requires WellPlaced(p) && Holds(Section(p), cd, m) && OneLineEach(Section(p)) && AllLawful(cd)
    requires e.Put? ==> e.blob != []
    ensures var q := EditLine(p, cd, e);
            WellPlaced(q) && Holds(Section(q), cd, ApplyOne(m, e)) && OneLineEach(Section(q))
  {
    PlacedLines(p);
    hide WellPlaced, Holds, OneLineEach, SetLine, DropLine, Name, Section, Lawful;
    match e
    case Put(k, b) =>
      SetRefines(p, cd, m, k, b);
      PutKeepsOneLine(p, cd, k, b);
    case Erase(k) =>
      EraseKeepsOneLine(p, k);
      RemoveRefines(p, cd, m, k);
  }

  /** So are the edits of a whole command. */
  lemma {:induction false} EditsRefine(p: Opened, cd: Codec, m: Store, edits: seq<Edit>)
    requires WellPlaced(p) && Holds(Section(p), cd, m) && OneLineEach(Section(p)) && AllLawful(cd)
    requires Storable(edits)
    ensures var q := EditLines(p, cd, edits);
            WellPlaced(q) && Holds(Section(q), cd, Applied(m, edits)) && OneLineEach(Section(q))
    decreases |edits|
  {
    PlacedLines(p);
    hide WellPlaced, Holds, OneLineEach, AllLawful, EditLine, ApplyOne, Section;
    if edits != [] {
      var front, last := edits[..|edits| - 1], edits[|edits| - 1];
      EditsRefine(p, cd, m, front);
      EditRefines(EditLines(p, cd, front), cd, Applied(m, front), last);
    }
  }

  /** What a command's edits make of the store is what the text says after they were made in it, it was written back,
      and opened again. */
  lemma TextFollows(text: string, cd: Codec, m: Store, edits: seq<Edit>)
    requires InText(text, cd, m) && AllLawful(cd) && Storable(edits)
    ensures InText(Rewritten(text, cd, edits), cd, Applied(m, edits))
  {
    OpenedIsPlaced(text);
    hide WellPlaced, Holds, OneLineEach, AllLawful, EditLines, Applied, Section, Open, Body, Storable;
    var p := Open(text).value;
    EditsRefine(p, cd, m, edits);
    var q := EditLines(p, cd, edits);
    ReopenRefines(q, cd, Applied(m, edits));
    ReopenedSection(q);
    var t := Rewritten(text, cd, edits);
    PrefixHasOneLine(Section(Open(t).value), Section(q));
  }

  lemma PrefixHasOneLine(a: seq<string>, b: seq<string>)
    requires a <= b && OneLineEach(b)
    ensures OneLineEach(a)
  {
    hide KeyOf;
    assert forall j :: 0 <= j < |a| ==> a[j] == b[j];
  }

  /** A text that is not edited stays as it is. */
  lemma NotRewritten(text: string, cd: Codec)
    ensures Rewritten(text, cd, []) == text
  {
    UneditedBody(text);
    hide Body;
  }

  // ---------------------------------------------------------------- the commands

  /** The file holds exactly the table `v` for fabric `i`. */
  ghost predicate TableIn(text: string, cd: Codec, i: uint8, v: View) {
    exists m: Store :: InText(text, cd, m) && OnDisk(m, i, v)
  }

  /** A file holds at most one table for a fabric. */
  lemma TableInOne(text: string, cd: Codec, i: uint8, v: View, w: View)
    requires TableIn(text, cd, i, v) && TableIn(text, cd, i, w)
    ensures v == w
  {
    hide InText, OnDisk;
    var m: Store :| InText(text, cd, m) && OnDisk(m, i, v);
    StoreOfTable(text, cd, m, i, w);
    OnDiskOne(m, i, v, w);
  }

  lemma StoreOfTable(text: string, cd: Codec, m: Store, i: uint8, v: View)
    requires InText(text, cd, m)
    ensures TableIn(text, cd, i, v) <==> OnDisk(m, i, v)
  {
    hide OnDisk, Holds, OneLineEach, Section;
    if TableIn(text, cd, i, v) {
      var m': Store :| InText(text, cd, m') && OnDisk(m', i, v);
      SameStore(text, cd, m, m');
    }
  }

  /** A text holds at most one store. */
  lemma SameStore(text: string, cd: Codec, m: Store, m': Store)
    requires InText(text, cd, m) && InText(text, cd, m')
    ensures m == m'
  {
    HoldsOne(Section(Open(text).value), cd, m, m');
    hide Open;
  }

  /** `mat group provision` on the file: its text follows the store, a failing call leaves it alone, and it holds the
      provisioned table afterwards. */
  method ProvisionFile(
    file: KvsFile, idx: uint8, cfid: bytes, w: ProvisionWrite, c: Crypto, env: Env,
    ghost v: View, ghost fabs: seq<uint16>, ghost text: string, ghost cd: Codec)
    returns (r: Result<(), GroupError>, ghost text': string)
    requires AllLawful(cd) && InText(text, cd, file.disk)
    modifies file
    ensures InText(text', cd, file.disk) && (r.Err? ==> text' == text)
    ensures TableIn(text, cd, idx, v) && HasRoom(v, w) && w.keysetId != IPK_KEYSET_ID && env.opens ==>
              match Provision(v, idx, w, SlotOf(c, w.epochKey, cfid))
              case Err(e) => r == Err(e)
              case Ok(v') => r.Ok? ==> TableIn(text', cd, idx, v')
  {
    hide InText, TableIn, OnDisk, AllLawful, Provision, HasRoom, HasId, Lists, Registered, FabricRoom;
    hide Applied, Storable, SlotZero, OthersUntouched, Rewritten, SlotOf;
    ghost var m := file.disk;
    StoreOfTable(text, cd, m, idx, v);
    ghost var edits;
    r, edits := WriteGroupProvision(file, idx, cfid, w, c, env, v, fabs);
    TextFollows(text, cd, m, edits);
    text' := if r.Ok? then Rewritten(text, cd, edits) else text;
    StoreOfTable(text', cd, file.disk, idx, ProvisionedView(v, idx, w, SlotOf(c, w.epochKey, cfid)));
    HasRoomForId(v, w);
  }

  lemma HasRoomForId(v: View, w: ProvisionWrite)
    ensures HasRoom(v, w) ==> MaxId(v.maps) < 0xFFFF
  {
    hide HasId;
  }

  /** `mat group remove` on the file. */
  method RemoveFromFile(
    file: KvsFile, idx: uint8, gid: uint16, env: Env,
    ghost v: View, ghost fabs: seq<uint16>, ghost text: string, ghost cd: Codec)
    returns (r: Result<bool, GroupError>, ghost text': string)
    requires AllLawful(cd) && InText(text, cd, file.disk)
    modifies file
    ensures InText(text', cd, file.disk) && (r.Err? ==> text' == text)
    ensures TableIn(text, cd, idx, v) && env.opens ==>
              match Remove(v, gid)
              case Err(e) => r == Err(e)
              case Ok(v') => if env.commits then r.Ok? && TableIn(text', cd, idx, v') else r == Err(Io)
  {
    hide InText, TableIn, OnDisk, AllLawful, Remove, Lists, Applied, Storable, SlotZero, OthersUntouched, Rewritten;
    ghost var m := file.disk;
    StoreOfTable(text, cd, m, idx, v);
    ghost var edits;
    r, edits := RemoveGroup(file, idx, gid, env, v, fabs);
    TextFollows(text, cd, m, edits);
    text' := if r.Ok? then Rewritten(text, cd, edits) else text;
    StoreOfTable(text', cd, file.disk, idx, if Remove(v, gid).Ok? then Remove(v, gid).value else v);
  }

  /** Every command on the file, rotation included: the text follows the store, and a failing call leaves it alone. */
  method PerformOnFile(
    file: KvsFile, idx: uint8, cfid: bytes, q: IpkRotation.Request, c: Crypto, env: Env,
    ghost text: string, ghost cd: Codec)
    returns (ok: bool, ghost text': string)
    requires AllLawful(cd) && InText(text, cd, file.disk)
    modifies file
    ensures InText(text', cd, file.disk) && (!ok ==> text' == text)
    ensures IpkRotation.IpkStep(old(file.disk), idx, c, cfid, IpkRotation.Effect(q), file.disk)
  {
    hide InText, AllLawful, Applied, Storable, IpkRotation.IpkStep, Rewritten;
    ghost var m := file.disk;
    ghost var edits;
    ok, edits := IpkRotation.Perform(file, idx, cfid, q, c, env);
    TextFollows(text, cd, m, edits);
    NotRewritten(text, cd);
    text' := Rewritten(text, cd, edits);
  }
}
