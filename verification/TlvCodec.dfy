/** The Matter TLV encoder and decoder, Appendix A of the Matter Core Specification
    (crates/mat-controller/src/tlv.rs). */
module TlvCodec {
  import opened Wrappers
  import opened Power
  import opened LittleEndian

  const USIZE: int := 0x1_0000_0000_0000_0000

  type int64 = n: int | -0x8000_0000_0000_0000 <= n < 0x8000_0000_0000_0000

  datatype Tag =
    | Anonymous
    | Context(t: uint8)
    | CommonProfile16(c16: uint16)
    | CommonProfile32(c32: uint32)
    | ImplicitProfile16(i16: uint16)
    | ImplicitProfile32(i32: uint32)
    | FullyQualified48(vendor: uint16, profile: uint16, f16: uint16)
    | FullyQualified64(vendor: uint16, profile: uint16, f32: uint32)

  /** Floating-point values are carried as their bit patterns. */
  datatype Value =
    | Int(i: int64)
    | Uint(u: uint64)
    | Bool(b: bool)
    | F32(bits32: uint32)
    | F64(bits64: uint64)
    | Utf8(text: bytes)
    | Bytes(data: bytes)
    | Null
    | StructStart
    | ArrayStart
    | ListStart
    | ContainerEnd

  datatype Element = Element(tag: Tag, value: Value)

  datatype TlvError = Truncated | InvalidType(t: uint8) | InvalidUtf8 | LengthOverflow

  // ---------------------------------------------------------------- UTF-8

  predicate Cont(b: uint8) { 0x80 <= b <= 0xBF }

  /** Length of the well-formed UTF-8 sequence at the front, 0 when there is none. */
  function CharLen(b: bytes): (n: nat)
    ensures n <= |b|
  {
    if |b| == 0 then 0
    else if b[0] <= 0x7F then 1
    else if |b| >= 2 && 0xC2 <= b[0] <= 0xDF && Cont(b[1]) then 2
    else if |b| >= 3 && 0xE0 <= b[0] <= 0xEF && Cont(b[1]) && Cont(b[2])
            && (b[0] == 0xE0 ==> b[1] >= 0xA0) && (b[0] == 0xED ==> b[1] <= 0x9F) then 3
    else if |b| >= 4 && 0xF0 <= b[0] <= 0xF4 && Cont(b[1]) && Cont(b[2]) && Cont(b[3])
            && (b[0] == 0xF0 ==> b[1] >= 0x90) && (b[0] == 0xF4 ==> b[1] <= 0x8F) then 4
    else 0
  }

  predicate ValidUtf8(b: bytes)
    decreases |b|
  {
    b == [] || (CharLen(b) > 0 && ValidUtf8(b[CharLen(b)..]))
  }

  // ---------------------------------------------------------------- encoding

  /** What the program can hold in a value: text is UTF-8, lengths fit a 64-bit `usize`. */
  predicate Writable(v: Value) {
    match v
    case Utf8(s) => ValidUtf8(s) && |s| < USIZE
    case Bytes(b) => |b| < USIZE
    case _ => true
  }

  function TagForm(t: Tag): uint8 {
    match t
    case Anonymous => 0
    case Context(_) => 1
    case CommonProfile16(_) => 2
    case CommonProfile32(_) => 3
    case ImplicitProfile16(_) => 4
    case ImplicitProfile32(_) => 5
    case FullyQualified48(_, _, _) => 6
    case FullyQualified64(_, _, _) => 7
  }

  function TagBytes(t: Tag): bytes {
    match t
    case Anonymous => []
    case Context(x) => [x]
    case CommonProfile16(x) => Le(x, 2)
    case CommonProfile32(x) => Le(x, 4)
    case ImplicitProfile16(x) => Le(x, 2)
    case ImplicitProfile32(x) => Le(x, 4)
    case FullyQualified48(v, p, x) => Le(v, 2) + Le(p, 2) + Le(x, 2)
    case FullyQualified64(v, p, x) => Le(v, 2) + Le(p, 2) + Le(x, 4)
  }

  /** Selector of the narrowest of the widths 1, 2, 4, 8 that holds `v`. */
  function WidthOf(v: uint64): uint8 {
    if v <= 0xFF then 0 else if v <= 0xFFFF then 1 else if v <= 0xFFFF_FFFF then 2 else 3
  }

  function Width(selector: uint8): nat
    requires selector <= 3
  {
    if selector == 0 then 1 else if selector == 1 then 2 else if selector == 2 then 4 else 8
  }

  /** Selector of the narrowest two's-complement width that holds `v`. */
  function SignedWidthOf(v: int64): uint8 {
    if -0x80 <= v < 0x80 then 0
    else if -0x8000 <= v < 0x8000 then 1
    else if -0x8000_0000 <= v < 0x8000_0000 then 2
    else 3
  }

  /** Two's complement of `v` in `n` bytes. */
  function SignedLe(v: int64, n: nat): bytes {
    Le(v % Pow(0x100, n), n)
  }

  function FromSignedLe(b: bytes): int {
    var u := FromLe(b);
    if 2 * u < Pow(0x100, |b|) then u else u - Pow(0x100, |b|)
  }

  function TypeBits(v: Value): uint8
    requires Writable(v)
  {
    match v
    case Int(i) => SignedWidthOf(i)
    case Uint(u) => 0x04 + WidthOf(u)
    case Bool(b) => if b then 0x09 else 0x08
    case F32(_) => 0x0A
    case F64(_) => 0x0B
    case Utf8(s) => 0x0C + WidthOf(|s|)
    case Bytes(b) => 0x10 + WidthOf(|b|)
    case Null => 0x14
    case StructStart => 0x15
    case ArrayStart => 0x16
    case ListStart => 0x17
    case ContainerEnd => 0x18
  }

  function ValueBytes(v: Value): bytes
    requires Writable(v)
  {
    match v
    case Int(i) => SignedLe(i, Width(SignedWidthOf(i)))
    case Uint(u) => Le(u, Width(WidthOf(u)))
    case F32(x) => Le(x, 4)
    case F64(x) => Le(x, 8)
    case Utf8(s) => Le(|s|, Width(WidthOf(|s|))) + s
    case Bytes(b) => Le(|b|, Width(WidthOf(|b|))) + b
    case _ => []
  }

  /** One element on the wire. */
  function Enc(e: Element): bytes
    requires Writable(e.value)
  {
    [0x20 * TagForm(e.tag) + TypeBits(e.value)] + TagBytes(e.tag) + ValueBytes(e.value)
  }

  predicate WritableAll(es: seq<Element>) {
    forall k :: 0 <= k < |es| ==> Writable(es[k].value)
  }

  function EncAll(es: seq<Element>): bytes
    requires WritableAll(es)
  {
    if es == [] then [] else Enc(es[0]) + EncAll(es[1..])
  }

  lemma ConcatAssoc(a: bytes, b: bytes, c: bytes)
    ensures (a + b) + c == a + (b + c)
  {
  }

  lemma {:induction false} EncAllConcat(a: seq<Element>, b: seq<Element>)
    requires WritableAll(a) && WritableAll(b)
    ensures WritableAll(a + b) && EncAll(a + b) == EncAll(a) + EncAll(b)
  {
    hide Enc;
    if a == [] {
      assert a + b == b;
    } else {
      var rest := a[1..];
      EncAllConcat(rest, b);
      assert (a + b)[0] == a[0] && (a + b)[1..] == rest + b;
      ConcatAssoc(Enc(a[0]), EncAll(rest), EncAll(b));
    }
  }

  // ---------------------------------------------------------------- decoding

  /** `n` bytes at `pos`. The program tests for overflow first; for buffers shorter than 2^64 that is the
      same. */
  function Take(buf: bytes, pos: nat, n: nat): (r: Result<bytes, TlvError>)
    ensures r.Ok? <==> pos + n <= |buf|
    ensures r.Ok? ==> |r.value| == n && At(buf, pos, r.value)
  {
    if pos + n <= |buf| then Ok(buf[pos..pos + n])
    else if pos + n >= USIZE then Err(LengthOverflow)
    else Err(Truncated)
  }

  function Num(b: bytes, n: nat): (v: nat)
    requires |b| == n
    ensures v < Pow(0x100, n)
  {
    FromLeBound(b);
    FromLe(b)
  }

  function Num16(b: bytes): uint16
    requires |b| == 2
  {
    Pow256Values();
    Num(b, 2)
  }

  function Num32(b: bytes): uint32
    requires |b| == 4
  {
    Pow256Values();
    Num(b, 4)
  }

  function Num64(b: bytes): uint64
    requires |b| <= 8
  {
    Pow256Values();
    Pow256Mono(|b|, 8);
    Num(b, |b|)
  }

  lemma {:induction false} Pow256Mono(m: nat, n: nat)
    requires m <= n
    ensures Pow(0x100, m) <= Pow(0x100, n)
  {
    if m < n { Pow256Mono(m, n - 1); }
  }

  function TagWidth(form: uint8): nat {
    if form == 0 then 0 else if form == 1 then 1 else if form == 2 || form == 4 then 2
    else if form == 3 || form == 5 then 4 else if form == 6 then 6 else 8
  }

  function TagOf(form: uint8, b: bytes): Tag
    requires form <= 7 && |b| == TagWidth(form)
  {
    if form == 0 then Anonymous
    else if form == 1 then Context(b[0])
    else if form == 2 then CommonProfile16(Num16(b))
    else if form == 3 then CommonProfile32(Num32(b))
    else if form == 4 then ImplicitProfile16(Num16(b))
    else if form == 5 then ImplicitProfile32(Num32(b))
    else if form == 6 then FullyQualified48(Num16(b[..2]), Num16(b[2..4]), Num16(b[4..]))
    else FullyQualified64(Num16(b[..2]), Num16(b[2..4]), Num32(b[4..]))
  }

  function SignedOf(b: bytes): int64
    requires 1 <= |b| <= 8
  {
    FromLeBound(b);
    Pow256Values();
    Pow256Mono(|b|, 8);
    FromSignedLe(b)
  }

  /** A length prefix of the given width and the bytes it announces. */
  function ReadPrefixed(buf: bytes, pos: nat, selector: uint8): (r: Result<(bytes, nat), TlvError>)
    requires selector <= 3
    ensures r.Ok? ==> pos < r.value.1 <= |buf| && |r.value.0| < USIZE
  {
    var w := Width(selector);
    match Take(buf, pos, w)
    case Err(e) => Err(e)
    case Ok(b) =>
      var n := Num64(b);
      match Take(buf, pos + w, n)
      case Err(e) => Err(e)
      case Ok(data) => Ok((data, pos + w + n))
  }

  /** The value of element type `t` at `pos`, and the position after it. */
  function ReadValue(buf: bytes, pos: nat, t: uint8): (r: Result<(Value, nat), TlvError>)
    requires pos <= |buf|
    ensures r.Ok? ==> pos <= r.value.1 <= |buf| && Writable(r.value.0)
  {
    if t <= 0x03 then
      match Take(buf, pos, Width(t))
      case Err(e) => Err(e)
      case Ok(b) => Ok((Int(SignedOf(b)), pos + Width(t)))
    else if t <= 0x07 then
      match Take(buf, pos, Width(t - 0x04))
      case Err(e) => Err(e)
      case Ok(b) => Ok((Uint(Num64(b)), pos + Width(t - 0x04)))
    else if t == 0x08 then Ok((Bool(false), pos))
    else if t == 0x09 then Ok((Bool(true), pos))
    else if t == 0x0A then
      match Take(buf, pos, 4)
      case Err(e) => Err(e)
      case Ok(b) => Ok((F32(Num32(b)), pos + 4))
    else if t == 0x0B then
      match Take(buf, pos, 8)
      case Err(e) => Err(e)
      case Ok(b) => Ok((F64(Num64(b)), pos + 8))
    else if t <= 0x0F then
      match ReadPrefixed(buf, pos, t - 0x0C)
      case Err(e) => Err(e)
      case Ok((data, end)) => if ValidUtf8(data) then Ok((Utf8(data), end)) else Err(InvalidUtf8)
    else if t <= 0x13 then
      match ReadPrefixed(buf, pos, t - 0x10)
      case Err(e) => Err(e)
      case Ok((data, end)) => Ok((Bytes(data), end))
    else if t == 0x14 then Ok((Null, pos))
    else if t == 0x15 then Ok((StructStart, pos))
    else if t == 0x16 then Ok((ArrayStart, pos))
    else if t == 0x17 then Ok((ListStart, pos))
    else if t == 0x18 then Ok((ContainerEnd, pos))
    else Err(InvalidType(t))
  }

  /** The element at `pos` and the position after it; `None` at the end of the input. */
  function Read(buf: bytes, pos: nat): (r: Result<Option<(Element, nat)>, TlvError>)
    ensures r.Ok? && r.value.Some? ==> pos < r.value.value.1 <= |buf| && Writable(r.value.value.0.value)
  {
    if pos >= |buf| then Ok(None)
    else
      match Take(buf, pos, 1)
      case Err(e) => Err(e)
      case Ok(c) =>
        var form: uint8 := c[0] / 0x20;
        match Take(buf, pos + 1, TagWidth(form))
        case Err(e) => Err(e)
        case Ok(tb) =>
          match ReadValue(buf, pos + 1 + TagWidth(form), c[0] % 0x20)
          case Err(e) => Err(e)
          case Ok((v, end)) => Ok(Some((Element(TagOf(form, tb), v), end)))
  }

  // ---------------------------------------------------------------- round trip

  lemma TakeAt(buf: bytes, pos: nat, s: bytes)
    requires At(buf, pos, s)
    ensures Take(buf, pos, |s|) == Ok(s) && pos + |s| <= |buf|
  {
  }

  lemma NumLe(v: nat, n: nat)
    requires v < Pow(0x100, n)
    ensures Num(Le(v, n), n) == v
  {
    LeRoundTrip(v, n);
  }

  lemma TagRoundTrip(t: Tag)
    ensures |TagBytes(t)| == TagWidth(TagForm(t))
    ensures TagOf(TagForm(t), TagBytes(t)) == t
  {
    Pow256Values();
    var b := TagBytes(t);
    match t
    case Anonymous =>
    case Context(_) =>
    case CommonProfile16(x) => NumLe(x, 2);
    case CommonProfile32(x) => NumLe(x, 4);
    case ImplicitProfile16(x) => NumLe(x, 2);
    case ImplicitProfile32(x) => NumLe(x, 4);
    case FullyQualified48(v, p, x) =>
      NumLe(v, 2); NumLe(p, 2); NumLe(x, 2);
      assert b[..2] == Le(v, 2) && b[2..4] == Le(p, 2) && b[4..] == Le(x, 2);
    case FullyQualified64(v, p, x) =>
      NumLe(v, 2); NumLe(p, 2); NumLe(x, 4);
      assert b[..2] == Le(v, 2) && b[2..4] == Le(p, 2) && b[4..] == Le(x, 4);
  }

  lemma WidthHolds(v: uint64)
    ensures v < Pow(0x100, Width(WidthOf(v)))
  {
    Pow256Values();
  }

  lemma SignedRoundTrip(v: int64)
    ensures var b := SignedLe(v, Width(SignedWidthOf(v)));
            |b| == Width(SignedWidthOf(v)) && SignedOf(b) == v
  {
    Pow256Values();
    var n := Width(SignedWidthOf(v));
    LeRoundTrip(v % Pow(0x100, n), n);
  }

  lemma LengthRoundTrip(n: uint64)
    ensures Num64(Le(n, Width(WidthOf(n)))) == n
  {
    WidthHolds(n);
    LeRoundTrip(n, Width(WidthOf(n)));
  }

  lemma ReadPrefixedIs(buf: bytes, pos: nat, selector: uint8, len: bytes, data: bytes)
    requires selector <= 3 && |len| == Width(selector) && |data| < USIZE
    requires Take(buf, pos, |len|) == Ok(len) && Num64(len) == |data|
    requires Take(buf, pos + |len|, |data|) == Ok(data)
    ensures ReadPrefixed(buf, pos, selector) == Ok((data, pos + |len| + |data|))
  {
    hide Take, Num64;
  }

  lemma PrefixedRoundTrip(buf: bytes, pos: nat, len: bytes, data: bytes)
    requires |data| < USIZE
    requires len == Le(|data|, Width(WidthOf(|data|)))
    requires At(buf, pos, len + data)
    ensures ReadPrefixed(buf, pos, WidthOf(|data|)) == Ok((data, pos + |len| + |data|))
  {
    hide At, Take, Num64, ReadPrefixed, Le;
    AtConcat(buf, pos, len, data);
    TakeAt(buf, pos, len);
    LengthRoundTrip(|data|);
    TakeAt(buf, pos + |len|, data);
    ReadPrefixedIs(buf, pos, WidthOf(|data|), len, data);
  }

  lemma ValueRoundTrip(buf: bytes, pos: nat, v: Value)
    requires Writable(v) && At(buf, pos, ValueBytes(v))
    ensures ReadValue(buf, pos, TypeBits(v)) == Ok((v, pos + |ValueBytes(v)|))
  {
    Pow256Values();
    hide Le, SignedLe, SignedOf, Num, ReadPrefixed, ValidUtf8, Take, At, Pow;
    match v
    case Int(i) => SignedRoundTrip(i); TakeAt(buf, pos, ValueBytes(v));
    case Uint(u) => WidthHolds(u); NumLe(u, Width(WidthOf(u))); TakeAt(buf, pos, ValueBytes(v));
    case F32(x) => NumLe(x, 4); TakeAt(buf, pos, ValueBytes(v));
    case F64(x) => NumLe(x, 8); TakeAt(buf, pos, ValueBytes(v));
    case Utf8(s) => PrefixedRoundTrip(buf, pos, Le(|s|, Width(WidthOf(|s|))), s);
    case Bytes(b) => PrefixedRoundTrip(buf, pos, Le(|b|, Width(WidthOf(|b|))), b);
    case _ =>
  }

  lemma ReadIs(buf: bytes, pos: nat, c: uint8, tag: bytes, v: Value, end: nat)
    requires pos < |buf| && Take(buf, pos, 1) == Ok([c])
    requires |tag| == TagWidth(c / 0x20) && Take(buf, pos + 1, |tag|) == Ok(tag)
    requires pos + 1 + |tag| <= |buf| && ReadValue(buf, pos + 1 + |tag|, c % 0x20) == Ok((v, end))
    ensures Read(buf, pos) == Ok(Some((Element(TagOf(c / 0x20, tag), v), end)))
  {
    hide Take, ReadValue, TagOf, TagWidth;
  }

  function Control(e: Element): uint8
    requires Writable(e.value)
  {
    0x20 * TagForm(e.tag) + TypeBits(e.value)
  }

  lemma ControlParts(e: Element)
    requires Writable(e.value)
    ensures Control(e) / 0x20 == TagForm(e.tag) && Control(e) % 0x20 == TypeBits(e.value)
  {
  }

  lemma EncParts(buf: bytes, pos: nat, e: Element)
    requires Writable(e.value) && At(buf, pos, Enc(e))
    ensures |Enc(e)| == 1 + |TagBytes(e.tag)| + |ValueBytes(e.value)|
    ensures At(buf, pos, [Control(e)]) && At(buf, pos + 1, TagBytes(e.tag))
    ensures At(buf, pos + 1 + |TagBytes(e.tag)|, ValueBytes(e.value))
  {
    hide At, TagForm, TypeBits, TagBytes, ValueBytes;
    AtConcat(buf, pos, [Control(e)] + TagBytes(e.tag), ValueBytes(e.value));
    AtConcat(buf, pos, [Control(e)], TagBytes(e.tag));
  }

  /** Reading at a written element gives that element back and stops right after it. */
  lemma ReadEnc(buf: bytes, pos: nat, e: Element)
    requires Writable(e.value) && At(buf, pos, Enc(e))
    ensures Read(buf, pos) == Ok(Some((e, pos + |Enc(e)|)))
  {
    ControlParts(e);
    hide *;
    var tb := TagBytes(e.tag);
    EncParts(buf, pos, e);
    TakeAt(buf, pos, [Control(e)]);
    TagRoundTrip(e.tag);
    TakeAt(buf, pos + 1, tb);
    ValueRoundTrip(buf, pos + 1 + |tb|, e.value);
    ReadIs(buf, pos, Control(e), tb, e.value, pos + |Enc(e)|);
  }

  /** All elements from `pos` to the end of the buffer. */
  function ReadAll(buf: bytes, pos: nat): Result<seq<Element>, TlvError>
    decreases |buf| - pos
  {
    match Read(buf, pos)
    case Err(e) => Err(e)
    case Ok(None) => Ok([])
    case Ok(Some((e, next))) =>
      match ReadAll(buf, next)
      case Err(err) => Err(err)
      case Ok(es) => Ok([e] + es)
  }

  lemma ReadAllStep(buf: bytes, pos: nat, e: Element, next: nat, rest: seq<Element>)
    requires Read(buf, pos) == Ok(Some((e, next))) && ReadAll(buf, next) == Ok(rest)
    ensures ReadAll(buf, pos) == Ok([e] + rest)
  {
    hide Read;
  }

  lemma ReadAllEnd(buf: bytes)
    ensures ReadAll(buf, |buf|) == Ok([])
  {
  }

  lemma {:induction false} ReadAllEnc(buf: bytes, pos: nat, es: seq<Element>)
    requires WritableAll(es) && At(buf, pos, EncAll(es)) && pos + |EncAll(es)| == |buf|
    ensures ReadAll(buf, pos) == Ok(es)
    decreases |es|
  {
    hide Enc, Read, ReadAll, Writable, Take;
    if es == [] {
      ReadAllEnd(buf);
    } else {
      hide At;
      var e, rest := es[0], es[1..];
      AtConcat(buf, pos, Enc(e), EncAll(rest));
      ReadEnc(buf, pos, e);
      ReadAllEnc(buf, pos + |Enc(e)|, rest);
      ReadAllStep(buf, pos, e, pos + |Enc(e)|, rest);
      assert [e] + rest == es;
    }
  }

  /** What a writer wrote, a reader reads: exactly those elements, up to the end of the buffer. */
  lemma StreamRoundTrip(es: seq<Element>)
    requires WritableAll(es)
    ensures ReadAll(EncAll(es), 0) == Ok(es)
  {
    AtWhole(EncAll(es));
    ReadAllEnc(EncAll(es), 0, es);
  }
}
