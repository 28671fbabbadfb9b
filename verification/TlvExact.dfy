/** Exactly which bytes the TLV decoder takes for which element: every tag form, every width, and nothing else
    (crates/mat-controller/src/tlv.rs). */
module TlvExact {
  import opened Wrappers
  import opened Power
  import opened LittleEndian
  import opened TlvCodec

  /** The bytes `b` stand for the value `v` under the element type `t`; numbers and lengths may be wider than they
      need to be. */
  predicate Stands(v: Value, t: uint8, b: bytes) {
    match v
    case Int(i) => t <= 0x03 && SignedFits(i, Width(t)) && b == SignedLe(i, Width(t))
    case Uint(u) => 0x04 <= t <= 0x07 && u < Pow(0x100, Width(t - 0x04)) && b == Le(u, Width(t - 0x04))
    case Bool(x) => t == (if x then 0x09 else 0x08) && b == []
    case F32(x) => t == 0x0A && b == Le(x, 4)
    case F64(x) => t == 0x0B && b == Le(x, 8)
    case Utf8(s) => 0x0C <= t <= 0x0F && ValidUtf8(s) && Prefixed(s, Width(t - 0x0C), b)
    case Bytes(s) => 0x10 <= t <= 0x13 && Prefixed(s, Width(t - 0x10), b)
    case Null => t == 0x14 && b == []
    case StructStart => t == 0x15 && b == []
    case ArrayStart => t == 0x16 && b == []
    case ListStart => t == 0x17 && b == []
    case ContainerEnd => t == 0x18 && b == []
  }

  /** `i` has a two's complement in `n` bytes. */
  predicate SignedFits(i: int, n: nat) { 0 <= 2 * i + Pow(0x100, n) < 2 * Pow(0x100, n) }

  /** `b` is the length of `s` in `n` bytes, and `s`. */
  predicate Prefixed(s: bytes, n: nat, b: bytes) { |s| < Pow(0x100, n) && b == Le(|s|, n) + s }

  lemma NumIsLe(b: bytes, u: nat)
    ensures FromLe(b) == u <==> u < Pow(0x100, |b|) && b == Le(u, |b|)
  {
    FromLeBound(b);
    FromLeRoundTrip(b);
    if u < Pow(0x100, |b|) { LeRoundTrip(u, |b|); }
  }

  lemma SignedIsLe(b: bytes, i: int64)
    ensures FromSignedLe(b) == i <==> SignedFits(i, |b|) && b == SignedLe(i, |b|)
  {
    var p := Pow(0x100, |b|);
    FromLeBound(b);
    var u := FromLe(b);
    NumIsLe(b, u);
    hide Le, FromLe, Pow;
    if SignedFits(i, |b|) && b == SignedLe(i, |b|) {
      NumIsLe(b, i % p);
      Wraps(i, p);
    } else if FromSignedLe(b) == i {
      Unwraps(i, u, p);
    }
  }

  lemma Wraps(i: int, p: nat)
    requires p > 0 && 0 <= 2 * i + p < 2 * p
    ensures i % p == if i >= 0 then i else i + p
  {
    if i < 0 {
      assert (i + p) % p == i % p;
    }
  }

  lemma Unwraps(i: int, u: nat, p: nat)
    requires u < p && i == if 2 * u < p then u else u - p
    ensures 0 <= 2 * i + p < 2 * p && i % p == u
  {
    if 2 * u >= p { assert (i + p) % p == i % p; }
  }

  lemma SliceAt(buf: bytes, pos: nat, end: nat, b: bytes)
    ensures pos <= end <= |buf| && buf[pos..end] == b <==> At(buf, pos, b) && end == pos + |b|
  {
  }

  lemma TakeIs(buf: bytes, pos: nat, n: nat, b: bytes)
    ensures Take(buf, pos, n) == Ok(b) <==> |b| == n && At(buf, pos, b)
  {
  }

  lemma PrefixedIsExact(buf: bytes, pos: nat, selector: uint8, data: bytes, end: nat)
    requires selector <= 3
    ensures ReadPrefixed(buf, pos, selector) == Ok((data, end))
            <==> pos <= end <= |buf| && Prefixed(data, Width(selector), buf[pos..end])
  {
    var w := Width(selector);
    hide Take, Le, Pow, FromLe, Width;
    if pos <= end <= |buf| && Prefixed(data, w, buf[pos..end]) {
      var len := Le(|data|, w);
      SliceAt(buf, pos, end, len + data);
      AtConcat(buf, pos, len, data);
      TakeIs(buf, pos, w, len);
      TakeIs(buf, pos + w, |data|, data);
      NumIsLe(len, |data|);
    } else if ReadPrefixed(buf, pos, selector) == Ok((data, end)) {
      var len := Take(buf, pos, w).value;
      TakeIs(buf, pos, w, len);
      TakeIs(buf, pos + w, |data|, data);
      NumIsLe(len, |data|);
      AtConcat(buf, pos, len, data);
      SliceAt(buf, pos, end, len + data);
    }
  }

  lemma NumberIsExact(buf: bytes, pos: nat, n: nat, u: nat, end: nat)
    ensures (Take(buf, pos, n).Ok? && FromLe(Take(buf, pos, n).value) == u && end == pos + n)
            <==> pos <= end <= |buf| && u < Pow(0x100, n) && buf[pos..end] == Le(u, n)
  {
    hide Le, FromLe, Pow;
    if Take(buf, pos, n).Ok? {
      NumIsLe(Take(buf, pos, n).value, u);
    }
  }

  lemma SignedIsExact(buf: bytes, pos: nat, n: nat, i: int64, end: nat)
    ensures (Take(buf, pos, n).Ok? && FromSignedLe(Take(buf, pos, n).value) == i && end == pos + n)
            <==> pos <= end <= |buf| && SignedFits(i, n) && buf[pos..end] == SignedLe(i, n)
  {
    hide Le, FromLe, Pow, FromSignedLe, SignedFits;
    if Take(buf, pos, n).Ok? {
      SignedIsLe(Take(buf, pos, n).value, i);
    }
  }

  lemma ValueIsExact(buf: bytes, pos: nat, t: uint8, v: Value, end: nat)
    requires pos <= |buf| && t < 0x20
    ensures ReadValue(buf, pos, t) == Ok((v, end)) <==> pos <= end <= |buf| && Stands(v, t, buf[pos..end])
  {
    Pow256Values();
    hide Le, FromLe, Pow, Take, FromSignedLe, SignedFits, Prefixed, ReadPrefixed, ValidUtf8, SignedLe;
    match v
    case Int(i) => if t <= 0x03 { SignedIsExact(buf, pos, Width(t), i, end); }
    case Uint(u) => if 0x04 <= t <= 0x07 { NumberIsExact(buf, pos, Width(t - 0x04), u, end); }
    case F32(x) => NumberIsExact(buf, pos, 4, x, end);
    case F64(x) => NumberIsExact(buf, pos, 8, x, end);
    case Utf8(s) => if 0x0C <= t <= 0x0F { PrefixedIsExact(buf, pos, t - 0x0C, s, end); }
    case Bytes(s) => if 0x10 <= t <= 0x13 { PrefixedIsExact(buf, pos, t - 0x10, s, end); }
    case _ =>
  }

  lemma TagIsExact(form: uint8, b: bytes, t: Tag)
    requires form <= 7 && |b| == TagWidth(form)
    ensures TagOf(form, b) == t <==> TagForm(t) == form && TagBytes(t) == b
  {
    TagRoundTrip(t);
    TagBack(form, b);
    hide TagOf, TagBytes;
  }

  lemma TagBack(form: uint8, b: bytes)
    requires form <= 7 && |b| == TagWidth(form)
    ensures TagForm(TagOf(form, b)) == form && TagBytes(TagOf(form, b)) == b
  {
    hide Le, FromLe, Pow;
    Pow256Values();
    FromLeRoundTrip(b);
    if form >= 6 {
      FromLeRoundTrip(b[..2]);
      FromLeRoundTrip(b[2..4]);
      FromLeRoundTrip(b[4..]);
      assert b == b[..2] + b[2..4] + b[4..];
    }
  }

  /** An element is read at `pos` exactly if its tag and its value stand there in one of their forms, and reading
      stops right behind it. The end of the input is no element, and a type above 0x18 is refused. */
  lemma ReadIsExact(buf: bytes, pos: nat, e: Element, end: nat)
    ensures Read(buf, pos) == Ok(Some((e, end))) <==>
              && pos < |buf| && buf[pos] / 0x20 == TagForm(e.tag) && At(buf, pos + 1, TagBytes(e.tag))
              && pos + 1 + |TagBytes(e.tag)| <= end <= |buf|
              && Stands(e.value, buf[pos] % 0x20, buf[pos + 1 + |TagBytes(e.tag)|..end])
    ensures Read(buf, pos) == Ok(None) <==> pos >= |buf|
    ensures pos < |buf| && pos + 1 + TagWidth(buf[pos] / 0x20) <= |buf| && buf[pos] % 0x20 > 0x18 ==>
              Read(buf, pos) == Err(InvalidType(buf[pos] % 0x20))
  {
    if pos < |buf| {
      var c := buf[pos];
      var form: uint8 := c / 0x20;
      var n := TagWidth(form);
      TagRoundTrip(e.tag);
      TakeIs(buf, pos, 1, [c]);
      assert Take(buf, pos, 1) == Ok([c]);
      TakeIs(buf, pos + 1, |TagBytes(e.tag)|, TagBytes(e.tag));
      if Take(buf, pos + 1, n).Ok? {
        TagIsExact(form, Take(buf, pos + 1, n).value, e.tag);
        ValueIsExact(buf, pos + 1 + n, c % 0x20, e.value, end);
        hide Stands, TagOf, TagBytes, TagForm, TagWidth, Take;
      } else {
        hide Stands, TagOf, TagBytes, TagForm, TagWidth;
      }
    }
  }
}
