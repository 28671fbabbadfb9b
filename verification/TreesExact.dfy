/** Exactly which elements make up a container, and which a stored record holds
    (crates/mat-controller/src/tlv.rs, crates/mat-controller/src/group_settings.rs). */
module TreesExact {
  import opened Wrappers
  import opened TlvCodec
  import opened TlvStream
  import opened TlvTrees
  import opened Records
  import opened KeysetRecord

  /** A tree as the elements it consists of, in order. */
  function TreeElements(t: Tree): seq<Element>
    decreases t, 0
  {
    match t
    case Leaf(tag, v) => [Element(tag, v)]
    case Branch(tag, start, kids) => [Element(tag, start)] + (ForestElements(kids) + [END])
  }

  function ForestElements(ts: seq<Tree>): seq<Element>
    decreases ts
  {
    if ts == [] then [] else TreeElements(ts[0]) + ForestElements(ts[1..])
  }

  /** The tag of an end marker means nothing. */
  predicate SameElement(a: Element, b: Element) { a == b || (a.value.ContainerEnd? && b.value.ContainerEnd?) }

  /** Reading from `pos` on gives these elements and stops at `end`. */
  predicate Reads(buf: bytes, pos: nat, es: seq<Element>, end: nat)
    decreases |es|
  {
    if es == [] then pos == end
    else
      var r := Read(buf, pos);
      r.Ok? && r.value.Some? && SameElement(r.value.value.0, es[0]) && Reads(buf, r.value.value.1, es[1..], end)
  }

  lemma {:induction false} ReadsJoin(buf: bytes, pos: nat, a: seq<Element>, mid: nat, b: seq<Element>, end: nat)
    requires Reads(buf, pos, a, mid) && Reads(buf, mid, b, end)
    ensures Reads(buf, pos, a + b, end)
    decreases |a|
  {
    hide Read;
    if a == [] {
      assert a + b == b;
    } else {
      assert (a + b)[1..] == a[1..] + b;
      ReadsJoin(buf, Read(buf, pos).value.value.1, a[1..], mid, b, end);
    }
  }

  lemma {:induction false} ReadsSplit(buf: bytes, pos: nat, a: seq<Element>, b: seq<Element>, end: nat) returns (mid: nat)
    requires Reads(buf, pos, a + b, end)
    ensures Reads(buf, pos, a, mid) && Reads(buf, mid, b, end)
    decreases |a|
  {
    hide Read;
    if a == [] {
      assert a + b == b;
      mid := pos;
    } else {
      assert (a + b)[1..] == a[1..] + b;
      mid := ReadsSplit(buf, Read(buf, pos).value.value.1, a[1..], b, end);
    }
  }

  lemma ReadsOne(buf: bytes, pos: nat, e: Element, end: nat)
    ensures Reads(buf, pos, [e], end) <==>
              && Read(buf, pos).Ok? && Read(buf, pos).value.Some?
              && SameElement(Read(buf, pos).value.value.0, e) && Read(buf, pos).value.value.1 == end
  {
    hide Read, SameElement;
    assert [e][1..] == [];
  }

  /** What was parsed was read, element by element. */
  lemma {:induction false} ParsedReads(buf: bytes, pos: nat)
    requires Parse(buf, pos).Ok?
    ensures Reads(buf, pos, ForestElements(Parse(buf, pos).value.0) + [END], Parse(buf, pos).value.1)
    decreases |buf| - pos, 1
  {
    hide Read, SameElement, Reads;
    var (e, next) := Read(buf, pos).value.value;
    if e.value.ContainerEnd? {
      assert SameElement(e, END) by { EndsAreSame(e); }
      ReadsOne(buf, pos, END, next);
      assert [] + [END] == [END];
    } else {
      var (t, after) := ParseTree(buf, next, e).value;
      TreeReads(buf, pos);
      ParsedReads(buf, after);
      var (ts, end) := Parse(buf, after).value;
      ReadsJoin(buf, pos, TreeElements(t), after, ForestElements(ts) + [END], end);
      assert ([t] + ts)[1..] == ts;
      assert TreeElements(t) + (ForestElements(ts) + [END]) == ForestElements([t] + ts) + [END];
    }
  }

  lemma EndsAreSame(e: Element)
    requires e.value.ContainerEnd?
    ensures SameElement(e, END)
  {
  }

  lemma {:induction false} TreeReads(buf: bytes, pos: nat)
    requires Read(buf, pos).Ok? && Read(buf, pos).value.Some?
    requires var (e, next) := Read(buf, pos).value.value; !e.value.ContainerEnd? && ParseTree(buf, next, e).Ok?
    ensures var (e, next) := Read(buf, pos).value.value;
            Reads(buf, pos, TreeElements(ParseTree(buf, next, e).value.0), ParseTree(buf, next, e).value.1)
    decreases |buf| - pos, 0
  {
    hide Read, Reads, Parse;
    var (e, next) := Read(buf, pos).value.value;
    ReadsOne(buf, pos, e, next);
    if IsStart(e.value) {
      ParsedReads(buf, next);
      var (kids, end) := Parse(buf, next).value;
      ReadsJoin(buf, pos, [e], next, ForestElements(kids) + [END], end);
      assert e == Element(e.tag, e.value);
    }
  }

  /** What reads as the elements of trees and an end marker is parsed as these trees. */
  lemma {:induction false} ReadsParse(buf: bytes, pos: nat, ts: seq<Tree>, end: nat)
    requires ProperAll(ts) && Reads(buf, pos, ForestElements(ts) + [END], end)
    ensures Parse(buf, pos) == Ok((ts, end))
    decreases ts
  {
    hide Read, Reads;
    if ts == [] {
      assert [] + [END] == [END];
      ReadsOne(buf, pos, END, end);
      hide SameElement;
      OnlyEnds(Read(buf, pos).value.value.0);
    } else {
      var t, rest := ts[0], ts[1..];
      assert ForestElements(ts) + [END] == TreeElements(t) + (ForestElements(rest) + [END]);
      var mid := ReadsSplit(buf, pos, TreeElements(t), ForestElements(rest) + [END], end);
      ReadsTree(buf, pos, t, mid);
      ReadsParse(buf, mid, rest, end);
      assert [t] + rest == ts;
      hide ParseTree, TreeElements;
    }
  }

  lemma OnlyEnds(e: Element)
    ensures SameElement(e, END) <==> e.value.ContainerEnd?
  {
  }

  lemma {:induction false} ReadsTree(buf: bytes, pos: nat, t: Tree, end: nat)
    requires Proper(t) && Reads(buf, pos, TreeElements(t), end)
    ensures Read(buf, pos).Ok? && Read(buf, pos).value.Some?
    ensures var (e, next) := Read(buf, pos).value.value;
            !e.value.ContainerEnd? && ParseTree(buf, next, e) == Ok((t, end))
    decreases t, 0
  {
    hide Read, Reads, Parse;
    match t
    case Leaf(tag, v) => ReadsOne(buf, pos, Element(tag, v), end);
    case Branch(tag, s, kids) =>
      var mid := ReadsSplit(buf, pos, [Element(tag, s)], ForestElements(kids) + [END], end);
      ReadsOne(buf, pos, Element(tag, s), mid);
      ReadsParse(buf, mid, kids, end);
  }

  /** A container is parsed as `ts` exactly if reading gives the elements of `ts` and then an end marker. */
  lemma ParseIsExact(buf: bytes, pos: nat, ts: seq<Tree>, end: nat)
    ensures Parse(buf, pos) == Ok((ts, end)) <==> ProperAll(ts) && Reads(buf, pos, ForestElements(ts) + [END], end)
  {
    hide Reads, ForestElements;
    if Parse(buf, pos).Ok? {
      assert ProperAll(Parse(buf, pos).value.0);
      ParsedReads(buf, pos);
    }
    hide ProperAll, Parse;
    if ProperAll(ts) && Reads(buf, pos, ForestElements(ts) + [END], end) { ReadsParse(buf, pos, ts, end); }
  }

  // ---------------------------------------------------------------- the last element of a kind

  /** `t` is the last element of its kind. */
  ghost predicate LastOf(ts: seq<Tree>, kind: Tree -> bool, t: Tree) {
    kind(t) && exists k :: 0 <= k < |ts| && ts[k] == t && forall j :: k < j < |ts| ==> !kind(ts[j])
  }

  predicate NoneOf(ts: seq<Tree>, kind: Tree -> bool) { forall k :: 0 <= k < |ts| ==> !kind(ts[k]) }

  lemma LastSnoc(ts: seq<Tree>, x: Tree, kind: Tree -> bool, t: Tree)
    ensures LastOf(ts + [x], kind, t) <==> if kind(x) then t == x else LastOf(ts, kind, t)
    ensures NoneOf(ts + [x], kind) <==> !kind(x) && NoneOf(ts, kind)
  {
    var s := ts + [x];
    assert s[|ts|] == x && forall k :: 0 <= k < |ts| ==> s[k] == ts[k];
    if LastOf(s, kind, t) {
      var k :| 0 <= k < |s| && s[k] == t && forall j :: k < j < |s| ==> !kind(s[j]);
      if k < |ts| { assert !kind(s[|ts|]); }
    }
    if !kind(x) && LastOf(ts, kind, t) {
      var k :| 0 <= k < |ts| && ts[k] == t && forall j :: k < j < |ts| ==> !kind(ts[j]);
      assert s[k] == t && forall j :: k < j < |s| ==> !kind(s[j]);
    }
  }

  lemma OneLast(ts: seq<Tree>, kind: Tree -> bool, a: Tree, b: Tree)
    requires LastOf(ts, kind, a) && LastOf(ts, kind, b)
    ensures a == b && !NoneOf(ts, kind)
  {
    var j :| 0 <= j < |ts| && ts[j] == a && forall i :: j < i < |ts| ==> !kind(ts[i]);
    var k :| 0 <= k < |ts| && ts[k] == b && forall i :: k < i < |ts| ==> !kind(ts[i]);
    assert kind(ts[j]) && kind(ts[k]);
  }

  // ---------------------------------------------------------------- stored records

  function Numbers(tag: uint8): Tree -> bool { t => IsUint(t, Context(tag)) }

  function Texts(tag: uint8): Tree -> bool { (t: Tree) => t.Leaf? && t.tag == Context(tag) && t.value.Utf8? }

  /** The last number under the context tag, at the top of the record; it must fit 16 bits. */
  ghost predicate LastNumber(ts: seq<Tree>, tag: uint8, n: uint16) {
    LastOf(ts, Numbers(tag), Leaf(Context(tag), Uint(n)))
  }

  ghost predicate LastString(ts: seq<Tree>, tag: uint8, s: bytes) {
    LastOf(ts, Texts(tag), Leaf(Context(tag), Utf8(s)))
  }

  lemma {:induction false} NumberIsLast(ts: seq<Tree>, tag: uint8, n: uint16)
    ensures LastU16(CtxLeaves(ts), tag) == Some(n) <==> LastNumber(ts, tag, n)
    decreases |ts|
  {
    if ts != [] {
      var front, t := ts[..|ts| - 1], ts[|ts| - 1];
      assert ts == front + [t];
      NumberIsLast(front, tag, n);
      LeavesSnoc(front, t);
      LastSnoc(front, t, Numbers(tag), Leaf(Context(tag), Uint(n)));
      hide CtxLeaves, LastOf;
      if t.Leaf? && t.tag.Context? {
        assert (CtxLeaves(front) + [Field(t.tag.t, t.value)])[..|CtxLeaves(front)|] == CtxLeaves(front);
      } else {
        assert CtxLeaves(front) + [] == CtxLeaves(front);
      }
    }
  }

  lemma {:induction false} TextIsLast(ts: seq<Tree>, tag: uint8, s: bytes)
    ensures LastText(CtxLeaves(ts), tag) == Some(s) <==> LastString(ts, tag, s)
    decreases |ts|
  {
    if ts != [] {
      var front, t := ts[..|ts| - 1], ts[|ts| - 1];
      assert ts == front + [t];
      TextIsLast(front, tag, s);
      LeavesSnoc(front, t);
      LastSnoc(front, t, Texts(tag), Leaf(Context(tag), Utf8(s)));
      hide CtxLeaves, LastOf;
      if t.Leaf? && t.tag.Context? {
        assert (CtxLeaves(front) + [Field(t.tag.t, t.value)])[..|CtxLeaves(front)|] == CtxLeaves(front);
      } else {
        assert CtxLeaves(front) + [] == CtxLeaves(front);
      }
    }
  }

  /** The four records, exactly: a struct in which the last number or text under each tag is the field's value; other
      elements do not matter, and a missing one or one of more than 16 bits spoils the record. */
  lemma FabricIsExact(blob: bytes, f: FabricData)
    ensures ParseFabricData(blob) == Some(f) <==>
              && Fields(blob).Some?
              && var ts := Fields(blob).value;
                 && LastNumber(ts, 1, f.firstGroup) && LastNumber(ts, 2, f.groupCount) && LastNumber(ts, 3, f.firstMap)
                 && LastNumber(ts, 4, f.mapCount) && LastNumber(ts, 5, f.firstKeyset) && LastNumber(ts, 6, f.keysetCount)
                 && LastNumber(ts, 7, f.next)
  {
    if Fields(blob).Some? {
      var ts := Fields(blob).value;
      NumberIsLast(ts, 1, f.firstGroup); NumberIsLast(ts, 2, f.groupCount); NumberIsLast(ts, 3, f.firstMap);
      NumberIsLast(ts, 4, f.mapCount); NumberIsLast(ts, 5, f.firstKeyset); NumberIsLast(ts, 6, f.keysetCount);
      NumberIsLast(ts, 7, f.next);
    }
    hide Fields, LastNumber, CtxLeaves, LastU16;
  }

  lemma GroupIsExact(blob: bytes, g: GroupData)
    ensures ParseGroupData(blob) == Some(g) <==>
              && Fields(blob).Some?
              && var ts := Fields(blob).value;
                 && LastString(ts, 1, g.name) && LastNumber(ts, 2, g.firstEndpoint) && LastNumber(ts, 3, g.endpointCount)
                 && LastNumber(ts, 4, g.next)
  {
    if Fields(blob).Some? {
      var ts := Fields(blob).value;
      TextIsLast(ts, 1, g.name); NumberIsLast(ts, 2, g.firstEndpoint); NumberIsLast(ts, 3, g.endpointCount);
      NumberIsLast(ts, 4, g.next);
    }
    hide Fields, LastNumber, LastString, CtxLeaves, LastU16, LastText, ValidUtf8;
  }

  lemma KeyMapIsExact(blob: bytes, m: KeyMap)
    ensures ParseKeyMap(blob) == Some(m) <==>
              && Fields(blob).Some?
              && var ts := Fields(blob).value;
                 LastNumber(ts, 1, m.groupId) && LastNumber(ts, 2, m.keysetId) && LastNumber(ts, 3, m.next)
  {
    if Fields(blob).Some? {
      var ts := Fields(blob).value;
      NumberIsLast(ts, 1, m.groupId); NumberIsLast(ts, 2, m.keysetId); NumberIsLast(ts, 3, m.next);
    }
    hide Fields, LastNumber, CtxLeaves, LastU16;
  }

  lemma FabricListIsExact(blob: bytes, l: FabricList)
    ensures ParseFabricList(blob) == Some(l) <==>
              && Fields(blob).Some?
              && var ts := Fields(blob).value; LastNumber(ts, 1, l.firstEntry) && LastNumber(ts, 2, l.entryCount)
  {
    if Fields(blob).Some? {
      var ts := Fields(blob).value;
      NumberIsLast(ts, 1, l.firstEntry); NumberIsLast(ts, 2, l.entryCount);
    }
    hide Fields, LastNumber, CtxLeaves, LastU16;
  }
}
