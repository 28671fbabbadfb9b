/** Walking over the fields of a struct, and splicing an encoded element (crates/mat-controller/src/tlv.rs). */
module TlvFields {
  import opened Wrappers
  import opened TlvCodec
  import opened TlvStream
  import opened TlvTrees

  /** The fields of a struct that are not containers, in order. */
  function Scalars(ts: seq<Tree>): seq<Element> {
    if ts == [] then []
    else (if ts[0].Leaf? then [Element(ts[0].tag, ts[0].value)] else []) + Scalars(ts[1..])
  }

  /** What is left to read at `pos` are the fields `left`, with the struct's end at `end`. */
  ghost predicate Remaining(buf: bytes, pos: nat, left: seq<Element>, end: nat) {
    Parse(buf, pos).Ok? && Scalars(Parse(buf, pos).value.0) == left && Parse(buf, pos).value.1 == end
  }

  class StructFields {
    const r: Reader

    constructor Inside(r: Reader)
      ensures this.r == r
    {
      this.r := r;
    }

    /** Consumes the opening element of a struct. Anything else, the end of the input included, is refused. */
    static method Open(r: Reader) returns (res: Result<StructFields, TlvError>)
      requires r.Valid()
      modifies r
      ensures r.Valid()
      ensures var n := Read(r.buf, old(r.pos));
              if n.Err? then res == Err(n.error)
              else if n.value.Some? && n.value.value.0.value.StructStart?
              then res.Ok? && res.value.r == r && r.pos == n.value.value.1
              else res == Err(InvalidType(0))
    {
      hide Read;
      var el := r.Next();
      if el.Err? { return Err(el.error); }
      if el.value.None? || !el.value.value.value.StructStart? { return Err(InvalidType(0)); }
      var fields := new StructFields.Inside(r);
      return Ok(fields);
    }

    /** The next field of any kind, `None` at the end of the struct. */
    method NextField() returns (res: Result<Option<Element>, TlvError>)
      requires r.Valid()
      modifies r
      ensures r.Valid()
      ensures var n := Read(r.buf, old(r.pos));
              if n.Err? then res == Err(n.error)
              else if n.value.None? then res == Err(Truncated)
              else
                && r.pos == n.value.value.1
                && res == Ok(if n.value.value.0.value.ContainerEnd? then None else Some(n.value.value.0))
      ensures res.Ok? ==> r.pos > old(r.pos)
    {
      hide Read;
      var el := r.Next();
      if el.Err? { return Err(el.error); }
      if el.value.None? { return Err(Truncated); }
      if el.value.value.value.ContainerEnd? { return Ok(None); }
      return Ok(el.value);
    }

    /** The next field that is not a container, `None` at the end of the struct; containers are skipped whole. */
    method NextScalar() returns (res: Result<Option<Element>, TlvError>)
      requires r.Valid()
      modifies r
      ensures r.Valid() && (res.Ok? ==> r.pos > old(r.pos))
      ensures Parse(r.buf, old(r.pos)).Ok? ==>
                var (ts, end) := Parse(r.buf, old(r.pos)).value;
                if Scalars(ts) == [] then res == Ok(None) && r.pos == end
                else res == Ok(Some(Scalars(ts)[0])) && Remaining(r.buf, r.pos, Scalars(ts)[1..], end)
      ensures var p := Parse(r.buf, old(r.pos));
              p.Err? ==> if res.Err? then res.error == p.error
                         else res.value.Some? && Parse(r.buf, r.pos) == Err(p.error)
    {
      hide Read, Scalars, Parse;
      while true
        invariant r.Valid() && r.pos >= old(r.pos)
        invariant Parse(r.buf, old(r.pos)).Ok? ==>
                    var (ts, end) := Parse(r.buf, old(r.pos)).value;
                    Remaining(r.buf, r.pos, Scalars(ts), end)
        invariant Parse(r.buf, old(r.pos)).Err? ==> Parse(r.buf, r.pos) == Err(Parse(r.buf, old(r.pos)).error)
        decreases |r.buf| - r.pos
      {
        FieldStep(r.buf, r.pos);
        var el := NextField();
        if el.Err? { return Err(el.error); }
        if el.value.None? { return Ok(None); }
        if !IsStart(el.value.value.value) { return el; }
        var skipped := SkipContainer(r);
        if skipped.Err? { return Err(skipped.error); }
      }
    }
  }

  /** What the element at `pos` says about the fields that remain. */
  lemma FieldStep(buf: bytes, pos: nat)
    ensures var n := Read(buf, pos);
            var p := Parse(buf, pos);
            if n.Err? then p == Err(n.error)
            else if n.value.None? then p == Err(Truncated)
            else
              var (e, next) := n.value.value;
              if e.value.ContainerEnd? then Remaining(buf, pos, [], next)
              else if !IsStart(e.value) then
                if p.Err? then Parse(buf, next) == Err(p.error)
                else
                  var (ts, end) := p.value;
                  Scalars(ts) != [] && Scalars(ts)[0] == e && Remaining(buf, next, Scalars(ts)[1..], end)
              else
                match Parse(buf, next)
                case Err(x) => p == Err(x)
                case Ok((_, after)) =>
                  if p.Err? then Parse(buf, after) == Err(p.error)
                  else Remaining(buf, after, Scalars(p.value.0), p.value.1)
  {
    hide Read;
    var n := Read(buf, pos);
    if n.Ok? && n.value.Some? {
      var (e, next) := n.value.value;
      if !e.value.ContainerEnd? {
        var t := ParseTree(buf, next, e);
        if t.Ok? && Parse(buf, t.value.1).Ok? {
          var ts := Parse(buf, t.value.1).value.0;
          assert ([t.value.0] + ts)[1..] == ts;
        }
      }
    }
  }

  /** Reading a struct scalar by scalar gives exactly its fields that are not containers, or fails as reading the
      whole struct does. */
  method AllScalars(f: StructFields) returns (res: Result<seq<Element>, TlvError>)
    requires f.r.Valid()
    modifies f.r
    ensures f.r.Valid()
    ensures match Parse(f.r.buf, old(f.r.pos))
            case Err(e) => res == Err(e)
            case Ok((ts, end)) => res == Ok(Scalars(ts)) && f.r.pos == end
  {
    hide Read, Scalars, Parse;
    var out: seq<Element> := [];
    ghost var whole := Parse(f.r.buf, f.r.pos);
    ghost var left := if whole.Ok? then Scalars(whole.value.0) else [];
    assert out + left == left;
    while true
      invariant f.r.Valid() && f.r.pos >= old(f.r.pos)
      invariant whole.Ok? ==> Remaining(f.r.buf, f.r.pos, left, whole.value.1) && out + left == Scalars(whole.value.0)
      invariant whole.Err? ==> Parse(f.r.buf, f.r.pos) == Err(whole.error)
      decreases |f.r.buf| - f.r.pos
    {
      if left != [] {
        assert out + left == (out + [left[0]]) + left[1..];
      }
      var el := f.NextScalar();
      if el.Err? { return Err(el.error); }
      if el.value.None? {
        assert whole.Ok? ==> out + [] == out;
        return Ok(out);
      }
      out := out + [el.value.value];
      left := if left == [] then [] else left[1..];
    }
  }

  // ---------------------------------------------------------------- splicing an encoded element

  /** The tree under another tag. */
  function Retagged(t: Tree, tag: Tag): Tree {
    match t
    case Leaf(_, v) => Leaf(tag, v)
    case Branch(_, s, kids) => Branch(tag, s, kids)
  }

  /** The element can be spliced: its first element reads, and with it everything it contains. Its widths need not be the
      shortest, and what follows it is not looked at. */
  predicate Spliceable(element: bytes) {
    var n := Read(element, 0);
    && n.Ok? && n.value.Some?
    && var (e, next) := n.value.value;
       e.value.ContainerEnd? || ParseTree(element, next, e).Ok?
  }

  /** What splicing writes: the tree of the first element in its shortest form under the new tag, nothing for an end
      marker. */
  function Spliced(element: bytes, tag: Tag): bytes
    requires Spliceable(element)
  {
    var (e, next) := Read(element, 0).value.value;
    if e.value.ContainerEnd? then []
    else
      var t := ParseTree(element, next, e).value.0;
      RetaggedIsProper(t, tag);
      TreeBytes(Retagged(t, tag))
  }

  lemma RetaggedIsProper(t: Tree, tag: Tag)
    requires Proper(t)
    ensures Proper(Retagged(t, tag))
  {
  }

  /** Copies the first element of an encoded text under another tag. */
  method PutRawElement(w: Writer, tag: Tag, element: bytes)
    requires Spliceable(element) && |element| < 0x8000_0000_0000_0000
    modifies w
    ensures w.buf == old(w.buf) + Spliced(element, tag) && w.depth == old(w.depth)
  {
    hide Enc, Read, TreeBytes, Parse, ParseTree;
    var r := new Reader(element);
    var el := r.Next();
    var e := el.value.value;
    if !e.value.ContainerEnd? {
      SameUnderTag(element, r.pos, e, tag, ParseTree(element, r.pos, e).value.0);
      var copied := CopyValue(w, r, tag, e.value);
    }
  }

  /** Splicing a tree that was written gives that tree under the new tag, whatever follows it. */
  lemma SplicedTree(t: Tree, more: bytes, tag: Tag)
    requires Proper(t)
    ensures Spliceable(TreeBytes(t) + more) && Proper(Retagged(t, tag))
    ensures Spliced(TreeBytes(t) + more, tag) == TreeBytes(Retagged(t, tag))
  {
    hide Enc, Read, TreeBytes, Parse, ParseTree;
    var buf := TreeBytes(t) + more;
    assert buf[0..|TreeBytes(t)|] == TreeBytes(t);
    ParseOneTree(buf, 0, t);
    RetaggedIsProper(t, tag);
  }

  lemma SameUnderTag(buf: bytes, pos: nat, e: Element, tag: Tag, t: Tree)
    requires pos <= |buf| && Writable(e.value) && !e.value.ContainerEnd?
    requires ParseTree(buf, pos, e).Ok? && ParseTree(buf, pos, e).value.0 == t
    ensures ParseTree(buf, pos, Element(tag, e.value)).Ok?
    ensures ParseTree(buf, pos, Element(tag, e.value)).value == (Retagged(t, tag), ParseTree(buf, pos, e).value.1)
    ensures Proper(Retagged(t, tag))
  {
    hide Parse;
  }
}
