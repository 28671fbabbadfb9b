/** The write transaction on the key-value file, and the store it holds (crates/mat-controller/src/kvs.rs). */
module KvsTransaction {
  import opened Wrappers
  import opened TextLines
  import opened KvsLines
  import opened GroupStore
  import opened KeyNames

  /** Base64, seen from outside. */
  datatype Codec = Codec(encode: bytes -> string, decode: string -> Option<bytes>)

  /** What is asked of it for one value: it decodes to itself, on one line without blanks at its ends, and only the
      empty value becomes the empty text. */
  ghost predicate Lawful(cd: Codec, b: bytes) {
    && cd.decode(cd.encode(b)) == Some(b) && Free(cd.encode(b), '\n')
    && Trim(cd.encode(b)) == cd.encode(b) && (b == [] <==> cd.encode(b) == "")
  }

  /** A value as the program reads it: an empty one counts as absent. */
  function Decoded(v: Option<string>, cd: Codec): Result<Option<bytes>, ()> {
    if v.None? || v.value == "" then Ok(None)
    else match cd.decode(v.value) case None => Err(()) case Some(b) => Ok(Some(b))
  }

  class KvsTxn {
    var lines: seq<string>
    var start: nat
    var end: nat
    const trailing: bool

    ghost predicate Valid()
      reads this
    {
      WellPlaced(State())
    }

    ghost function State(): Opened
      reads this
    {
      Opened(lines, start, end, trailing)
    }

    constructor (p: Opened)
      requires WellPlaced(p)
      ensures Valid() && State() == p
    {
      lines, start, end, trailing := p.lines, p.start, p.end, p.trailing;
    }

    /** Index of the line for a key. */
    method Find(key: string) returns (i: Option<nat>)
      requires Valid()
      ensures var n := LineOf(Section(State()), key);
              i == if n < |Section(State())| then Some(start + n) else None
    {
      hide KeyOf, First, IsHeader, IsNext;
      for j := start to end
        invariant forall k :: start <= k < j ==> KeyOf(lines[k]) != Some(key)
      {
        if KeyOf(lines[j]) == Some(key) {
          FirstUnique(Section(State()), 0, Says(key), j - start);
          return Some(j);
        }
      }
      FirstUnique(Section(State()), 0, Says(key), |Section(State())|);
      return None;
    }

    method Get(key: string, cd: Codec) returns (r: Result<Option<bytes>, ()>)
      requires Valid()
      ensures r == Decoded(Value(Section(State()), key), cd)
    {
      hide KeyOf, First, RawOf, WellPlaced;
      PlacedLines(State());
      var i := Find(key);
      if i.None? { return Ok(None); }
      var v := RawOf(lines[i.value]);
      if v == "" { return Ok(None); }
      var b := cd.decode(v);
      return if b.None? then Err(()) else Ok(b);
    }

    method Set(key: string, value: bytes, cd: Codec)
      requires Valid() && GoodKey(key) && Lawful(cd, value)
      modifies this
      ensures Valid() && State() == SetLine(old(State()), key, key + ['='] + cd.encode(value))
    {
      hide KeyOf, LineOf, IsHeader, IsNext, WellPlaced, GoodKey, Trim;
      PlacedLines(State());
      SetSection(State(), key, cd.encode(value));
      FirstLine(State(), key);
      var line := key + ['='] + cd.encode(value);
      var i := Find(key);
      if i.Some? {
        lines := lines[i.value := line];
      } else {
        lines := lines[..end] + [line] + lines[end..];
        end := end + 1;
      }
    }

    method Remove(key: string)
      requires Valid()
      modifies this
      ensures Valid() && State() == DropLine(old(State()), key)
    {
      hide KeyOf, First, IsHeader, IsNext, WellPlaced;
      PlacedLines(State());
      RemoveLaw(State(), key, key);
      var i := Find(key);
      if i.Some? {
        lines := lines[..i.value] + lines[i.value + 1..];
        end := end - 1;
      }
    }

    /** The text written back. */
    method Commit() returns (body: string)
      ensures body == Body(lines, trailing)
    {
      body := Join(lines, '\n');
      if trailing && lines != [] { body := body + "\n"; }
    }
  }

  /** Finds the default section: its first line and the line after its last. */
  method Locate(lines: seq<string>) returns (r: Option<(nat, nat)>)
    ensures var h := HeaderAt(lines);
            r == if h == |lines| then None else Some((h + 1, SectionEnd(lines, h + 1)))
  {
    hide First, IsHeader, IsNext;
    var start: Option<nat> := None;
    var end: nat := |lines|;
    ghost var upTo: nat := |lines|;
    for i := 0 to |lines|
      invariant end == |lines|
      invariant start.None? ==> forall j :: 0 <= j < i ==> !IsHeader(lines[j])
      invariant start.Some? ==> 0 < start.value <= i && start.value == HeaderAt(lines) + 1
      invariant start.Some? ==> forall j :: start.value <= j < i ==> !IsNext(lines[j])
    {
      if start.None? {
        if IsHeader(lines[i]) {
          FirstUnique(lines, 0, IsHeader, i);
          start := Some(i + 1);
        }
      } else if IsNext(lines[i]) {
        end := i;
        break;
      }
    }
    if start.None? {
      FirstUnique(lines, 0, IsHeader, |lines|);
      return None;
    }
    FirstUnique(lines, start.value, IsNext, end);
    return Some((start.value, end));
  }

  /** Opens a text; `None` without a default section. */
  method OpenTxn(text: string) returns (r: Option<KvsTxn>)
    ensures r.Some? <==> Open(text).Some?
    ensures r.Some? ==> fresh(r.value) && r.value.Valid() && r.value.State() == Open(text).value
  {
    hide Split, HeaderAt, SectionEnd, WellPlaced;
    var trailing := text != "" && text[|text| - 1] == '\n';
    var lines := Split(text, '\n');
    if trailing && lines[|lines| - 1] == "" { lines := lines[..|lines| - 1]; }
    var found := Locate(lines);
    if found.None? { return None; }
    OpenedIsPlaced(text);
    var txn := new KvsTxn(Opened(lines, found.value.0, found.value.1, trailing));
    return Some(txn);
  }

  // ---------------------------------------------------------------- the store in the file

  /** What a section holds under a store key. */
  function CellOf(sec: seq<string>, cd: Codec, k: Key): Option<Cell> {
    match Decoded(Value(sec, Name(k)), cd)
    case Err(_) => Some(BadBase64)
    case Ok(None) => None
    case Ok(Some(b)) => Some(Data(b))
  }

  /** The section holds exactly the store `m`. */
  ghost predicate Holds(sec: seq<string>, cd: Codec, m: Store) {
    forall k: Key :: CellOf(sec, cd, k) == if k in m then Some(m[k]) else None
  }

  lemma NameIsGood(k: Key)
    ensures GoodKey(Name(k))
  {
    NameChars(k);
    hide Name;
    forall l | 0 <= l < |Name(k)|
      ensures Name(k)[l] != '=' && Name(k)[l] != '\n' && !IsSpace(Name(k)[l]) && Name(k)[l] != '['
    {
      assert NameChar(Name(k)[l]);
    }
  }

  /** The store after setting a key: an empty value reads as absent. */
  function Stored(m: Store, k: Key, b: bytes): Store { if b == [] then m - {k} else m[k := Data(b)] }

  /** Setting a store key in the file is updating the store, or removing the key for an empty value. */
  lemma SetRefines(p: Opened, cd: Codec, m: Store, k: Key, b: bytes)
    requires WellPlaced(p) && Holds(Section(p), cd, m) && Lawful(cd, b)
    ensures var q := SetLine(p, Name(k), Name(k) + ['='] + cd.encode(b));
            WellPlaced(q) && Holds(Section(q), cd, Stored(m, k, b))
  {
    hide Name, SetLine, WellPlaced, Value, GoodKey, Trim, Section;
    NameIsGood(k);
    PlacedLines(p);
    var q := SetLine(p, Name(k), Name(k) + ['='] + cd.encode(b));
    SetLaw(p, Name(k), cd.encode(b), Name(k));
    PlacedLines(q);
    var m' := Stored(m, k, b);
    forall x: Key
      ensures CellOf(Section(q), cd, x) == if x in m' then Some(m'[x]) else None
    {
      SetLaw(p, Name(k), cd.encode(b), Name(x));
      if x != k && Name(x) == Name(k) { NamesInjective(x, k); }
      assert CellOf(Section(p), cd, x) == if x in m then Some(m[x]) else None;
    }
  }

  /** Removing a store key that has one line in the file is removing it from the store. */
  lemma RemoveRefines(p: Opened, cd: Codec, m: Store, k: Key)
    requires WellPlaced(p) && Holds(Section(p), cd, m)
    requires var i := LineOf(Section(p), Name(k));
             forall j :: i < j < |Section(p)| ==> KeyOf(Section(p)[j]) != Some(Name(k))
    ensures var q := DropLine(p, Name(k));
            WellPlaced(q) && Holds(Section(q), cd, m - {k})
  {
    hide Name, DropLine, WellPlaced, Value, KeyOf, Section;
    PlacedLines(p);
    var q := DropLine(p, Name(k));
    RemoveLaw(p, Name(k), Name(k));
    PlacedLines(q);
    forall x: Key
      ensures CellOf(Section(q), cd, x) == if x in m - {k} then Some((m - {k})[x]) else None
    {
      RemoveLaw(p, Name(k), Name(x));
      if x != k && Name(x) == Name(k) { NamesInjective(x, k); }
      assert CellOf(Section(p), cd, x) == if x in m then Some(m[x]) else None;
    }
  }

  /** A file written back and opened again holds the same store. */
  lemma ReopenRefines(p: Opened, cd: Codec, m: Store)
    requires WellPlaced(p) && Holds(Section(p), cd, m)
    ensures var q := Open(Body(p.lines, p.trailing));
            q.Some? && WellPlaced(q.value) && Holds(Section(q.value), cd, m)
  {
    hide Name, Open, Body, WellPlaced, Value, Section;
    PlacedLines(p);
    Reopened(p, "");
    var q := Open(Body(p.lines, p.trailing)).value;
    PlacedLines(q);
    forall x: Key
      ensures CellOf(Section(q), cd, x) == if x in m then Some(m[x]) else None
    {
      Reopened(p, Name(x));
      assert CellOf(Section(p), cd, x) == if x in m then Some(m[x]) else None;
    }
  }
}
