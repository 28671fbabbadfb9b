/** TLV containers as trees: the reference for skipping and copying (crates/mat-controller/src/tlv.rs). */
module TlvTrees {
  import opened Wrappers
  import opened LittleEndian
  import opened TlvCodec
  import opened TlvStream

  /** A complete element: a value of its own, or a container with everything in it. */
  datatype Tree = Leaf(tag: Tag, value: Value) | Branch(tag: Tag, start: Value, kids: seq<Tree>)

  /** Trees a writer can write. */
  predicate Proper(t: Tree) {
    match t
    case Leaf(_, v) => Writable(v) && !IsStart(v) && !v.ContainerEnd?
    case Branch(_, s, kids) => IsStart(s) && ProperAll(kids)
  }

  predicate ProperAll(ts: seq<Tree>) {
    forall t :: t in ts ==> Proper(t)
  }

  /** The bytes of a tree, and of the rest of a container. */
  function TreeBytes(t: Tree): bytes
    requires Proper(t)
    decreases t, 0
  {
    match t
    case Leaf(tag, v) => Enc(Element(tag, v))
    case Branch(tag, s, kids) => Enc(Element(tag, s)) + (ForestBytes(kids) + Enc(END))
  }

  function ForestBytes(ts: seq<Tree>): bytes
    requires ProperAll(ts)
    decreases ts
  {
    if ts == [] then [] else TreeBytes(ts[0]) + ForestBytes(ts[1..])
  }

  lemma {:induction false} ForestConcat(a: seq<Tree>, b: seq<Tree>)
    requires ProperAll(a) && ProperAll(b)
    ensures ProperAll(a + b) && ForestBytes(a + b) == ForestBytes(a) + ForestBytes(b)
  {
    hide TreeBytes, Proper;
    if a == [] {
      assert a + b == b;
    } else {
      ForestConcat(a[1..], b);
      assert (a + b)[1..] == a[1..] + b;
      ConcatAssoc(TreeBytes(a[0]), ForestBytes(a[1..]), ForestBytes(b));
    }
  }

  lemma ForestSnoc(a: seq<Tree>, t: Tree)
    requires ProperAll(a) && Proper(t)
    ensures ProperAll(a + [t]) && ForestBytes(a + [t]) == ForestBytes(a) + TreeBytes(t)
  {
    hide TreeBytes, Proper;
    ForestConcat(a, [t]);
    assert [t][1..] == [];
    assert TreeBytes(t) + [] == TreeBytes(t);
  }

  /** The rest of a container from `pos` on: its trees and the position after its end marker. */
  function Parse(buf: bytes, pos: nat): (r: Result<(seq<Tree>, nat), TlvError>)
    ensures r.Ok? ==> pos < r.value.1 <= |buf| && ProperAll(r.value.0)
    decreases |buf| - pos, 0
  {
    match Read(buf, pos)
    case Err(e) => Err(e)
    case Ok(None) => Err(Truncated)
    case Ok(Some((e, next))) =>
      if e.value.ContainerEnd? then Ok(([], next))
      else
        match ParseTree(buf, next, e)
        case Err(err) => Err(err)
        case Ok((t, after)) =>
          match Parse(buf, after)
          case Err(err) => Err(err)
          case Ok((ts, end)) => Ok(([t] + ts, end))
  }

  /** The tree that starts with element `e`, already read up to `pos`. */
  function ParseTree(buf: bytes, pos: nat, e: Element): (r: Result<(Tree, nat), TlvError>)
    requires pos <= |buf| && Writable(e.value) && !e.value.ContainerEnd?
    ensures r.Ok? ==> pos <= r.value.1 <= |buf| && Proper(r.value.0) && r.value.0.tag == e.tag
    decreases |buf| - pos, 1
  {
    if !IsStart(e.value) then Ok((Leaf(e.tag, e.value), pos))
    else
      match Parse(buf, pos)
      case Err(err) => Err(err)
      case Ok((kids, end)) => Ok((Branch(e.tag, e.value, kids), end))
  }

  // ---------------------------------------------------------------- parsing what was written

  lemma {:induction false} ParseForest(buf: bytes, pos: nat, ts: seq<Tree>)
    requires ProperAll(ts) && At(buf, pos, ForestBytes(ts) + Enc(END))
    ensures Parse(buf, pos) == Ok((ts, pos + |ForestBytes(ts)| + |Enc(END)|))
    decreases ts
  {
    hide Enc, Read, At, ParseTree;
    if ts == [] {
      assert [] + Enc(END) == Enc(END);
      ReadEnc(buf, pos, END);
    } else {
      var t := ts[0];
      ConcatAssoc(TreeBytes(t), ForestBytes(ts[1..]), Enc(END));
      AtConcat(buf, pos, TreeBytes(t), ForestBytes(ts[1..]) + Enc(END));
      ParseOneTree(buf, pos, t);
      ParseForest(buf, pos + |TreeBytes(t)|, ts[1..]);
      assert [t] + ts[1..] == ts;
    }
  }

  lemma {:induction false} ParseOneTree(buf: bytes, pos: nat, t: Tree)
    requires Proper(t) && At(buf, pos, TreeBytes(t))
    ensures Read(buf, pos).Ok? && Read(buf, pos).value.Some?
    ensures var (e, next) := Read(buf, pos).value.value;
            e == Element(t.tag, if t.Leaf? then t.value else t.start)
            && !e.value.ContainerEnd?
            && ParseTree(buf, next, e) == Ok((t, pos + |TreeBytes(t)|))
    decreases t, 0
  {
    hide Enc, Read, At, Parse;
    match t
    case Leaf(tag, v) => ReadEnc(buf, pos, Element(tag, v));
    case Branch(tag, s, kids) =>
      AtConcat(buf, pos, Enc(Element(tag, s)), ForestBytes(kids) + Enc(END));
      ReadEnc(buf, pos, Element(tag, s));
      ParseForest(buf, pos + |Enc(Element(tag, s))|, kids);
  }

  // ---------------------------------------------------------------- skipping

  /** Reading elements until `depth` open containers are closed. */
  function Skip(buf: bytes, pos: nat, depth: nat): Result<nat, TlvError>
    decreases |buf| - pos
  {
    if depth == 0 then Ok(pos)
    else
      match Read(buf, pos)
      case Err(e) => Err(e)
      case Ok(None) => Err(Truncated)
      case Ok(Some((e, next))) =>
        Skip(buf, next, if IsStart(e.value) then depth + 1 else if e.value.ContainerEnd? then depth - 1 else depth)
  }

  /** Counting depths stops where the recursive structure ends, or fails the same way, at every depth and on
      every input. */
  lemma {:induction false} SkipFollowsParse(buf: bytes, pos: nat, depth: nat)
    requires depth > 0
    ensures Skip(buf, pos, depth) ==
            match Parse(buf, pos) case Err(e) => Err(e) case Ok((_, end)) => Skip(buf, end, depth - 1)
    decreases |buf| - pos
  {
    hide Read;
    var r := Read(buf, pos);
    if r.Ok? && r.value.Some? {
      var (e, next) := r.value.value;
      if IsStart(e.value) {
        SkipFollowsParse(buf, next, depth + 1);
        if Parse(buf, next).Ok? {
          SkipFollowsParse(buf, Parse(buf, next).value.1, depth);
        }
      } else if !e.value.ContainerEnd? {
        SkipFollowsParse(buf, next, depth);
      }
    }
  }

  method SkipContainer(r: Reader) returns (res: Result<(), TlvError>)
    requires r.Valid()
    modifies r
    ensures r.Valid()
    ensures match Parse(r.buf, old(r.pos))
            case Err(e) => res == Err(e)
            case Ok((_, end)) => res == Ok(()) && r.pos == end
  {
    hide Read, Parse;
    var depth := 1;
    SkipFollowsParse(r.buf, r.pos, 1);
    while depth > 0
      invariant r.Valid()
      invariant Skip(r.buf, r.pos, depth) == Skip(r.buf, old(r.pos), 1)
      decreases |r.buf| - r.pos, depth
    {
      var el := r.Next();
      if el.Err? { return Err(el.error); }
      if el.value.None? { return Err(Truncated); }
      if IsStart(el.value.value.value) {
        depth := depth + 1;
      } else if el.value.value.value.ContainerEnd? {
        depth := depth - 1;
      }
    }
    return Ok(());
  }

  // ---------------------------------------------------------------- reading a container tree by tree

  /** Having read `done` between `start` and `pos`, what is left decides what the whole container is. */
  ghost predicate Progress(buf: bytes, start: nat, pos: nat, done: seq<Tree>) {
    match Parse(buf, pos)
    case Err(e) => Parse(buf, start) == Err(e)
    case Ok((ts, end)) => Parse(buf, start) == Ok((done + ts, end))
  }

  lemma ProgressStart(buf: bytes, pos: nat)
    ensures Progress(buf, pos, pos, [])
  {
    hide Parse;
    if Parse(buf, pos).Ok? { assert [] + Parse(buf, pos).value.0 == Parse(buf, pos).value.0; }
  }

  /** One element further: the container ends, fails, or has one more tree. */
  ghost predicate Advances(buf: bytes, start: nat, pos: nat, done: seq<Tree>) {
    var r := Read(buf, pos);
    if r.Err? then Parse(buf, start) == Err(r.error)
    else if r.value.None? then Parse(buf, start) == Err(Truncated)
    else if r.value.value.0.value.ContainerEnd? then Parse(buf, start) == Ok((done, r.value.value.1))
    else
      var t := ParseTree(buf, r.value.value.1, r.value.value.0);
      if t.Err? then Parse(buf, start) == Err(t.error)
      else Progress(buf, start, t.value.1, done + [t.value.0])
  }

  lemma ProgressStep(buf: bytes, start: nat, pos: nat, done: seq<Tree>)
    requires Progress(buf, start, pos, done)
    ensures Advances(buf, start, pos, done)
  {
    hide Read, ParseTree;
    var r := Read(buf, pos);
    if r.Ok? && r.value.Some? {
      var (e, next) := r.value.value;
      if e.value.ContainerEnd? {
        assert done + [] == done;
      } else {
        var t := ParseTree(buf, next, e);
        if t.Ok? && Parse(buf, t.value.1).Ok? {
          var ts := Parse(buf, t.value.1).value.0;
          assert done + ([t.value.0] + ts) == (done + [t.value.0]) + ts;
        }
      }
    }
  }

  // ---------------------------------------------------------------- copying

  /** Copies the element whose start has been read, with its whole subtree, under the tag `tag`. */
  method CopyValue(w: Writer, r: Reader, tag: Tag, value: Value) returns (res: Result<(), TlvError>)
    requires r.Valid() && Writable(value) && !value.ContainerEnd?
    modifies w, r
    ensures r.Valid() && (res.Ok? ==> r.pos >= old(r.pos))
    ensures match ParseTree(r.buf, old(r.pos), Element(tag, value))
            case Err(e) => res == Err(e)
            case Ok((t, end)) =>
              res == Ok(()) && r.pos == end && w.buf == old(w.buf) + TreeBytes(t) && w.depth == old(w.depth)
    decreases |r.buf| - r.pos, 1
  {
    hide Enc, Parse;
    if !IsStart(value) {
      w.Put(tag, value);
      return Ok(());
    }
    w.Start(tag, value);
    res := CopyContainer(w, r);
  }

  /** Copies the rest of the innermost open container, end marker included. */
  method CopyContainer(w: Writer, r: Reader) returns (res: Result<(), TlvError>)
    requires r.Valid() && w.depth > 0
    modifies w, r
    ensures r.Valid()
    ensures match Parse(r.buf, old(r.pos))
            case Err(e) => res == Err(e)
            case Ok((ts, end)) =>
              res == Ok(()) && r.pos == end
              && w.buf == old(w.buf) + (ForestBytes(ts) + Enc(END)) && w.depth == old(w.depth) - 1
    decreases |r.buf| - r.pos, 0
  {
    hide Enc, Read, Parse, ParseTree, TreeBytes, Progress;
    ghost var done: seq<Tree> := [];
    assert w.buf + [] == w.buf;
    ProgressStart(r.buf, r.pos);
    while true
      invariant r.Valid() && old(r.pos) <= r.pos && w.depth == old(w.depth)
      invariant ProperAll(done) && w.buf == old(w.buf) + ForestBytes(done)
      invariant Progress(r.buf, old(r.pos), r.pos, done)
      decreases |r.buf| - r.pos
    {
      ProgressStep(r.buf, old(r.pos), r.pos, done);
      var el := r.Next();
      if el.Err? { return Err(el.error); }
      if el.value.None? { return Err(Truncated); }
      var e := el.value.value;
      if e.value.ContainerEnd? {
        w.EndContainer();
        ConcatAssoc(old(w.buf), ForestBytes(done), Enc(END));
        return Ok(());
      }
      ghost var t := ParseTree(r.buf, r.pos, e);
      res := CopyValue(w, r, e.tag, e.value);
      if res.Err? { return; }
      ForestSnoc(done, t.value.0);
      ConcatAssoc(old(w.buf), ForestBytes(done), TreeBytes(t.value.0));
      done := done + [t.value.0];
    }
  }
}
