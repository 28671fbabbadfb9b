/** The streaming TLV writer and reader objects (crates/mat-controller/src/tlv.rs). */
module TlvStream {
  import opened Wrappers
  import opened LittleEndian
  import opened TlvCodec

  predicate IsStart(v: Value) { v.StructStart? || v.ArrayStart? || v.ListStart? }

  /** What `end_container` writes. */
  const END := Element(Anonymous, ContainerEnd)

  class Writer {
    var buf: bytes
    var depth: nat

    constructor ()
      ensures buf == [] && depth == 0
    {
      buf, depth := [], 0;
    }

    method ControlAndTag(typeBits: uint8, tag: Tag)
      requires typeBits < 0x20
      modifies `buf
      ensures buf == old(buf) + [0x20 * TagForm(tag) + typeBits] + TagBytes(tag)
    {
      match tag {
        case Anonymous => buf := buf + [typeBits];
        case Context(t) =>
          buf := buf + [0x20 + typeBits];
          buf := buf + [t];
        case CommonProfile16(t) =>
          buf := buf + [0x40 + typeBits];
          buf := buf + Le(t, 2);
        case CommonProfile32(t) =>
          buf := buf + [0x60 + typeBits];
          buf := buf + Le(t, 4);
        case ImplicitProfile16(t) =>
          buf := buf + [0x80 + typeBits];
          buf := buf + Le(t, 2);
        case ImplicitProfile32(t) =>
          buf := buf + [0xA0 + typeBits];
          buf := buf + Le(t, 4);
        case FullyQualified48(vendor, profile, t) =>
          buf := buf + [0xC0 + typeBits];
          buf := buf + (Le(vendor, 2) + Le(profile, 2) + Le(t, 2));
        case FullyQualified64(vendor, profile, t) =>
          buf := buf + [0xE0 + typeBits];
          buf := buf + (Le(vendor, 2) + Le(profile, 2) + Le(t, 4));
      }
    }

    method PutUint(tag: Tag, v: uint64)
      modifies `buf
      ensures buf == old(buf) + Enc(Element(tag, Uint(v)))
    {
      hide Le, TagBytes, TagForm;
      if v <= 0xFF {
        ControlAndTag(0x04, tag);
        buf := buf + Le(v, 1);
      } else if v <= 0xFFFF {
        ControlAndTag(0x05, tag);
        buf := buf + Le(v, 2);
      } else if v <= 0xFFFF_FFFF {
        ControlAndTag(0x06, tag);
        buf := buf + Le(v, 4);
      } else {
        ControlAndTag(0x07, tag);
        buf := buf + Le(v, 8);
      }
    }

    method PutInt(tag: Tag, v: int64)
      modifies `buf
      ensures buf == old(buf) + Enc(Element(tag, Int(v)))
    {
      hide SignedLe, TagBytes, TagForm;
      var n := SignedWidthOf(v);
      ControlAndTag(n, tag);
      buf := buf + SignedLe(v, Width(n));
    }

    /** Null, booleans and container starts carry no bytes of their own. */
    method PutBare(tag: Tag, v: Value)
      requires v.Null? || v.Bool? || IsStart(v)
      modifies `buf
      ensures buf == old(buf) + Enc(Element(tag, v))
    {
      hide TagBytes, TagForm;
      ControlAndTag(TypeBits(v), tag);
    }

    /** Floating-point bit patterns. */
    method PutFloat(tag: Tag, v: Value)
      requires v.F32? || v.F64?
      modifies `buf
      ensures buf == old(buf) + Enc(Element(tag, v))
    {
      hide TagBytes, TagForm, Le;
      if v.F32? {
        ControlAndTag(0x0A, tag);
        buf := buf + Le(v.bits32, 4);
      } else {
        ControlAndTag(0x0B, tag);
        buf := buf + Le(v.bits64, 8);
      }
    }

    method PutLenPrefixed(baseType: uint8, tag: Tag, data: bytes)
      requires |data| < USIZE && baseType <= 0x10
      modifies `buf
      ensures buf == old(buf) + [0x20 * TagForm(tag) + baseType + WidthOf(|data|)] + TagBytes(tag)
                     + (Le(|data|, Width(WidthOf(|data|))) + data)
    {
      hide TagBytes, TagForm, Le;
      var len := |data|;
      if len <= 0xFF {
        ControlAndTag(baseType, tag);
        buf := buf + Le(len, 1);
      } else if len <= 0xFFFF {
        ControlAndTag(baseType + 1, tag);
        buf := buf + Le(len, 2);
      } else if len <= 0xFFFF_FFFF {
        ControlAndTag(baseType + 2, tag);
        buf := buf + Le(len, 4);
      } else {
        ControlAndTag(baseType + 3, tag);
        buf := buf + Le(len, 8);
      }
      buf := buf + data;
    }

    method PutStr(tag: Tag, v: bytes)
      requires ValidUtf8(v) && |v| < USIZE
      modifies `buf
      ensures buf == old(buf) + Enc(Element(tag, Utf8(v)))
    {
      hide TagBytes, TagForm, Le, WidthOf, Width;
      PutLenPrefixed(0x0C, tag, v);
    }

    method PutBytes(tag: Tag, v: bytes)
      requires |v| < USIZE
      modifies `buf
      ensures buf == old(buf) + Enc(Element(tag, Bytes(v)))
    {
      hide TagBytes, TagForm, Le, WidthOf, Width;
      PutLenPrefixed(0x10, tag, v);
    }

    method Start(tag: Tag, v: Value)
      requires IsStart(v)
      modifies this
      ensures buf == old(buf) + Enc(Element(tag, v)) && depth == old(depth) + 1
    {
      PutBare(tag, v);
      depth := depth + 1;
    }

    method EndContainer()
      requires depth > 0
      modifies this
      ensures buf == old(buf) + Enc(END) && depth == old(depth) - 1
    {
      buf := buf + [0x18];
      depth := depth - 1;
    }

    /** One writer call, by the value it writes. */
    method Put(tag: Tag, v: Value)
      requires Writable(v) && !IsStart(v) && !v.ContainerEnd?
      modifies `buf
      ensures buf == old(buf) + Enc(Element(tag, v))
    {
      hide Enc;
      match v {
        case Int(i) => PutInt(tag, i);
        case Uint(u) => PutUint(tag, u);
        case F32(_) => PutFloat(tag, v);
        case F64(_) => PutFloat(tag, v);
        case Utf8(s) => PutStr(tag, s);
        case Bytes(b) => PutBytes(tag, b);
        case _ => PutBare(tag, v);
      }
    }
  }

  /** Open containers after a sequence of writer calls; `None` once an end has nothing to close. */
  function DepthAfter(es: seq<Element>): Option<nat> {
    if es == [] then Some(0)
    else
      match DepthAfter(es[..|es| - 1])
      case None => None
      case Some(d) =>
        var v := es[|es| - 1].value;
        if IsStart(v) then Some(d + 1)
        else if v.ContainerEnd? then (if d > 0 then Some(d - 1) else None)
        else Some(d)
  }

  /** Writer calls that do not panic and can be finished. */
  predicate Balanced(es: seq<Element>) {
    && WritableAll(es) && DepthAfter(es) == Some(0)
    && forall k :: 0 <= k < |es| ==> es[k].value.ContainerEnd? ==> es[k] == END
  }

  lemma {:induction false} DepthOfPrefix(es: seq<Element>, n: nat)
    requires n <= |es| && DepthAfter(es).Some?
    ensures DepthAfter(es[..n]).Some?
    decreases |es|
  {
    if n == |es| {
      assert es[..n] == es;
    } else {
      var front := es[..|es| - 1];
      DepthOfPrefix(front, n);
      assert front[..n] == es[..n];
    }
  }

  lemma EncSingle(e: Element)
    requires Writable(e.value)
    ensures EncAll([e]) == Enc(e)
  {
    hide Enc;
    assert [e][1..] == [];
    assert Enc(e) + [] == Enc(e);
  }

  /** Drives a writer through a balanced sequence of calls. */
  method WriteAll(es: seq<Element>) returns (out: bytes)
    requires Balanced(es)
    ensures out == EncAll(es)
  {
    hide Enc;
    var w := new Writer();
    for i := 0 to |es|
      invariant w.buf == EncAll(es[..i]) && DepthAfter(es[..i]) == Some(w.depth)
    {
      var e := es[i];
      assert es[..i + 1] == es[..i] + [e];
      EncAllConcat(es[..i], [e]);
      EncSingle(e);
      DepthOfPrefix(es, i + 1);
      assert es[..i + 1][..i] == es[..i];
      if IsStart(e.value) {
        w.Start(e.tag, e.value);
      } else if e.value.ContainerEnd? {
        w.EndContainer();
      } else {
        w.Put(e.tag, e.value);
      }
    }
    assert es[..|es|] == es;
    return w.buf;
  }

  // ---------------------------------------------------------------- reader

  lemma SliceConcat(b: bytes, i: nat, j: nat, k: nat)
    requires i <= j <= k <= |b|
    ensures b[i..j] + b[j..k] == b[i..k]
  {
  }

  class Reader {
    const buf: bytes
    var pos: nat

    /** A slice is never longer than `isize::MAX`. */
    predicate Valid()
      reads this
    {
      |buf| < 0x8000_0000_0000_0000 && pos <= |buf|
    }

    constructor (input: bytes)
      requires |input| < 0x8000_0000_0000_0000
      ensures Valid() && buf == input && pos == 0
    {
      buf, pos := input, 0;
    }

    method TakeN(n: nat) returns (r: Result<bytes, TlvError>)
      requires Valid()
      modifies this
      ensures Valid() && r == Take(buf, old(pos), n)
      ensures pos == if r.Ok? then old(pos) + n else old(pos)
    {
      var end := pos + n;
      if end >= USIZE { return Err(LengthOverflow); }
      if end > |buf| { return Err(Truncated); }
      var s := buf[pos..end];
      pos := end;
      return Ok(s);
    }

    /** The fields of a fully qualified tag, read one after the other. */
    method TakeFields(last: nat) returns (r: Result<bytes, TlvError>)
      requires Valid() && last <= 4
      modifies this
      ensures Valid() && r == Take(buf, old(pos), 4 + last)
      ensures r.Ok? ==> pos == old(pos) + 4 + last
    {
      var start := pos;
      var vendor := TakeN(2);
      if vendor.Err? { return vendor; }
      var profile := TakeN(2);
      if profile.Err? { return profile; }
      var tag := TakeN(last);
      if tag.Err? { return tag; }
      SliceConcat(buf, start, start + 2, start + 4);
      SliceConcat(buf, start, start + 4, start + 4 + last);
      return Ok(vendor.value + profile.value + tag.value);
    }

    method ReadTag(control: uint8) returns (r: Result<Tag, TlvError>)
      requires Valid()
      modifies this
      ensures Valid()
      ensures match Take(buf, old(pos), TagWidth(control / 0x20))
              case Err(e) => r == Err(e)
              case Ok(b) => r == Ok(TagOf(control / 0x20, b)) && pos == old(pos) + TagWidth(control / 0x20)
    {
      var form: uint8 := control / 0x20;
      if form == 0 { return Ok(Anonymous); }
      var b;
      if form >= 6 {
        b := TakeFields(if form == 6 then 2 else 4);
      } else {
        b := TakeN(TagWidth(form));
      }
      if b.Err? { return Err(b.error); }
      return Ok(TagOf(form, b.value));
    }

    /** A length prefix and the bytes it announces. */
    method TakePrefixed(selector: uint8) returns (r: Result<bytes, TlvError>)
      requires Valid() && selector <= 3
      modifies this
      ensures Valid()
      ensures match ReadPrefixed(buf, old(pos), selector)
              case Err(e) => r == Err(e)
              case Ok((data, end)) => r == Ok(data) && pos == end
    {
      var len := TakeN(Width(selector));
      if len.Err? { return Err(len.error); }
      r := TakeN(Num64(len.value));
    }

    method ReadValueOf(t: uint8) returns (r: Result<Value, TlvError>)
      requires Valid()
      modifies this
      ensures Valid()
      ensures match ReadValue(buf, old(pos), t)
              case Err(e) => r == Err(e)
              case Ok((v, end)) => r == Ok(v) && pos == end
    {
      hide Take, ReadPrefixed, Num64, SignedOf, Num32, ValidUtf8;
      if t <= 0x0B && t != 0x08 && t != 0x09 {
        var n := if t <= 0x03 then Width(t) else if t <= 0x07 then Width(t - 0x04)
                 else if t == 0x0A then 4 else 8;
        var b := TakeN(n);
        if b.Err? { return Err(b.error); }
        return Ok(if t <= 0x03 then Int(SignedOf(b.value)) else if t <= 0x07 then Uint(Num64(b.value))
                  else if t == 0x0A then F32(Num32(b.value)) else F64(Num64(b.value)));
      }
      if 0x0C <= t <= 0x13 {
        var data := TakePrefixed(if t <= 0x0F then t - 0x0C else t - 0x10);
        if data.Err? { return Err(data.error); }
        if t > 0x0F { return Ok(Bytes(data.value)); }
        return if ValidUtf8(data.value) then Ok(Utf8(data.value)) else Err(InvalidUtf8);
      }
      match t {
        case 0x08 => return Ok(Bool(false));
        case 0x09 => return Ok(Bool(true));
        case 0x14 => return Ok(Null);
        case 0x15 => return Ok(StructStart);
        case 0x16 => return Ok(ArrayStart);
        case 0x17 => return Ok(ListStart);
        case 0x18 => return Ok(ContainerEnd);
        case _ => return Err(InvalidType(t));
      }
    }

    method Next() returns (r: Result<Option<Element>, TlvError>)
      requires Valid()
      modifies this
      ensures Valid()
      ensures match Read(buf, old(pos))
              case Err(e) => r == Err(e)
              case Ok(None) => r == Ok(None) && pos == old(pos)
              case Ok(Some((e, next))) => r == Ok(Some(e)) && pos == next
    {
      hide Take, ReadValue, TagOf, TagWidth;
      if pos >= |buf| { return Ok(None); }
      var c := TakeN(1);
      if c.Err? { assert false; }
      var control := c.value[0];
      var tag := ReadTag(control);
      if tag.Err? { return Err(tag.error); }
      var value := ReadValueOf(control % 0x20);
      if value.Err? { return Err(value.error); }
      return Ok(Some(Element(tag.value, value.value)));
    }
  }
}
