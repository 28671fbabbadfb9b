/** Exactly what the DER reader and the signature reader accept (crates/mat-controller/src/x509.rs). */
module DerExact {
  import opened Wrappers
  import opened LittleEndian
  import opened Der
  import opened Signatures

  /** A length in one of its forms; the long ones may be longer than they need to be. */
  predicate LengthForm(l: bytes, n: nat) {
    || (n < 0x80 && l == [n])
    || (n < 0x100 && l == [0x81, n])
    || (n < 0x1_0000 && l == [0x82, n / 0x100, n % 0x100])
  }

  lemma LengthIsExact(buf: bytes, pos: nat, n: nat, start: nat)
    ensures ReadLength(buf, pos) == Ok((n, start))
            <==> pos <= start <= |buf| && LengthForm(buf[pos..start], n)
  {
    if pos <= start <= |buf| && LengthForm(buf[pos..start], n) {
      var l := buf[pos..start];
      assert forall k :: 0 <= k < |l| ==> l[k] == buf[pos + k];
      if n < 0x1_0000 { WordOf(n); }
    } else if ReadLength(buf, pos) == Ok((n, start)) {
      var l := buf[pos..start];
      assert forall k :: 0 <= k < |l| ==> l[k] == buf[pos + k];
      if start == pos + 3 { WordParts(buf[pos + 1], buf[pos + 2]); }
    }
  }

  lemma WordOf(n: nat)
    requires n < 0x1_0000
    ensures Word(n / 0x100, n % 0x100) == n
  {
  }

  lemma WordParts(hi: uint8, lo: uint8)
    ensures Word(hi, lo) < 0x1_0000 && Word(hi, lo) / 0x100 == hi && Word(hi, lo) % 0x100 == lo
  {
  }

  lemma Within(buf: bytes, pos: nat, s: bytes, a: nat, b: nat)
    requires At(buf, pos, s) && a <= b <= |s|
    ensures buf[pos + a..pos + b] == s[a..b]
  {
    assert forall k :: a <= k < b ==> s[k] == buf[pos..pos + |s|][k] == buf[pos + k];
  }

  /** A tag, a length in one of its forms, and the content. */
  predicate ItemForm(item: Item) {
    && |item.raw| > |item.content| && item.raw[0] == item.tag
    && var start := |item.raw| - |item.content|;
       LengthForm(item.raw[1..start], |item.content|) && item.raw[start..] == item.content
  }

  lemma FormReads(buf: bytes, pos: nat, item: Item)
    requires ItemForm(item) && At(buf, pos, item.raw)
    ensures ReadItem(buf, pos) == Ok((item, pos + |item.raw|))
  {
    var start := |item.raw| - |item.content|;
    Within(buf, pos, item.raw, 1, start);
    Within(buf, pos, item.raw, start, |item.raw|);
    Within(buf, pos, item.raw, 0, |item.raw|);
    assert buf[pos] == buf[pos..pos + |item.raw|][0] == item.raw[0];
    LengthIsExact(buf, pos + 1, |item.content|, pos + start);
    hide LengthForm, ReadLength, At;
  }

  lemma ReadHasForm(buf: bytes, pos: nat, item: Item, end: nat)
    requires ReadItem(buf, pos) == Ok((item, end))
    ensures ItemForm(item) && At(buf, pos, item.raw) && end == pos + |item.raw|
  {
    hide LengthForm, ReadLength;
    var start := ReadLength(buf, pos + 1).value.1;
    LengthIsExact(buf, pos + 1, |item.content|, start);
    assert At(buf, pos, item.raw);
    Within(buf, pos, item.raw, 1, start - pos);
    Within(buf, pos, item.raw, start - pos, |item.raw|);
  }

  /** An item is read at `pos` exactly if a tag, a length in one of its forms and that many bytes stand there;
      reading stops right behind them. */
  lemma ItemIsExact(buf: bytes, pos: nat, item: Item, end: nat)
    ensures ReadItem(buf, pos) == Ok((item, end))
            <==> ItemForm(item) && At(buf, pos, item.raw) && end == pos + |item.raw|
  {
    hide ItemForm, ReadItem, At;
    if ReadItem(buf, pos) == Ok((item, end)) { ReadHasForm(buf, pos, item, end); }
    if ItemForm(item) && At(buf, pos, item.raw) { FormReads(buf, pos, item); }
  }

  // ---------------------------------------------------------------- signatures

  /** An integer of 1 to 32 bytes, or of 33 the first of which is zero, stands for the 32 bytes of its value. */
  predicate Stands32(b: bytes, x: bytes) {
    && 1 <= |b| <= 33 && (|b| == 33 ==> b[0] == 0)
    && x == (Zeros(32) + b)[|b|..]
  }

  lemma IntIsExact(b: bytes, x: bytes)
    ensures IntTo32(b) == Some(x) <==> Stands32(b, x)
  {
    if 1 <= |b| <= 33 && (|b| == 33 ==> b[0] == 0) {
      var m := if |b| > 1 && b[0] == 0 then b[1..] else b;
      if m == b {
        PaddedEnd(b);
      } else {
        PaddedEnd(m);
        DroppedZero(b);
      }
    }
  }

  lemma PaddedEnd(b: bytes)
    requires |b| <= 32
    ensures (Zeros(32) + b)[|b|..] == Zeros(32 - |b|) + b
  {
  }

  lemma DroppedZero(b: bytes)
    requires 1 < |b| <= 33 && b[0] == 0
    ensures (Zeros(32) + b)[|b|..] == (Zeros(32) + b[1..])[|b| - 1..]
  {
    var x, y := (Zeros(32) + b)[|b|..], (Zeros(32) + b[1..])[|b| - 1..];
    assert |x| == |y| == 32;
    forall k | 0 <= k < 32
      ensures x[k] == y[k]
    {
      assert x[k] == (Zeros(32) + b)[|b| + k] && y[k] == (Zeros(32) + b[1..])[|b| - 1 + k];
    }
  }

  /** Some item with the tag stands at `pos`, with this content, and ends at `end`. */
  ghost predicate Under(buf: bytes, pos: nat, tag: uint8, content: bytes, end: nat) {
    exists l: bytes :: LengthForm(l, |content|) && At(buf, pos, [tag] + l + content) && end == pos + 1 + |l| + |content|
  }

  lemma UnderIsExact(buf: bytes, pos: nat, tag: uint8, content: bytes, end: nat)
    ensures ExpectAt(buf, pos, tag) == Ok((content, end)) <==> Under(buf, pos, tag, content, end)
  {
    hide Under, ReadItem;
    if ExpectAt(buf, pos, tag) == Ok((content, end)) {
      ItemIsUnder(buf, pos, ReadItem(buf, pos).value.0, end);
    } else if Under(buf, pos, tag, content, end) {
      UnderIsItem(buf, pos, tag, content, end);
    }
  }

  lemma ItemIsUnder(buf: bytes, pos: nat, item: Item, end: nat)
    requires ReadItem(buf, pos) == Ok((item, end))
    ensures Under(buf, pos, item.tag, item.content, end)
  {
    hide LengthForm, At, ReadItem;
    ReadHasForm(buf, pos, item, end);
    var start := |item.raw| - |item.content|;
    assert item.raw == [item.tag] + item.raw[1..start] + item.content;
  }

  lemma UnderIsItem(buf: bytes, pos: nat, tag: uint8, content: bytes, end: nat)
    requires Under(buf, pos, tag, content, end)
    ensures ExpectAt(buf, pos, tag) == Ok((content, end))
  {
    hide LengthForm, At, ReadItem;
    var l: bytes :| LengthForm(l, |content|) && At(buf, pos, [tag] + l + content) && end == pos + 1 + |l| + |content|;
    var item := Item(tag, content, [tag] + l + content);
    assert item.raw[1..1 + |l|] == l && item.raw[1 + |l|..] == content;
    FormReads(buf, pos, item);
  }

  /** The bytes begin with a sequence that begins with two integers, which stand for the two halves of `sig`. */
  ghost predicate IsSignature(der: bytes, sig: bytes) {
    exists body: bytes, end: nat, r: bytes, rEnd: nat, s: bytes, sEnd: nat ::
      && Under(der, 0, 0x30, body, end) && Under(body, 0, 0x02, r, rEnd) && Under(body, rEnd, 0x02, s, sEnd)
      && |sig| == 64 && Stands32(r, sig[..32]) && Stands32(s, sig[32..])
  }

  /** A signature is read exactly if it is one. */
  lemma EcdsaIsExact(der: bytes, sig: bytes)
    ensures EcdsaParsed(der) == Some(sig) <==> IsSignature(der, sig)
  {
    hide Under, Stands32, IntTo32, ExpectAt;
    if EcdsaParsed(der) == Some(sig) {
      var (body, end) := ExpectAt(der, 0, SEQUENCE).value;
      var (r, rEnd) := ExpectAt(body, 0, INTEGER).value;
      var (s, sEnd) := ExpectAt(body, rEnd, INTEGER).value;
      UnderIsExact(der, 0, 0x30, body, end);
      UnderIsExact(body, 0, 0x02, r, rEnd);
      UnderIsExact(body, rEnd, 0x02, s, sEnd);
      var x, y := IntTo32(r).value, IntTo32(s).value;
      IntIsExact(r, x);
      IntIsExact(s, y);
      Halves(r, s, x, y);
    }
    if body: bytes, end: nat, r: bytes, rEnd: nat, s: bytes, sEnd: nat :|
      && Under(der, 0, 0x30, body, end) && Under(body, 0, 0x02, r, rEnd) && Under(body, rEnd, 0x02, s, sEnd)
      && |sig| == 64 && Stands32(r, sig[..32]) && Stands32(s, sig[32..])
    {
      UnderIsExact(der, 0, 0x30, body, end);
      UnderIsExact(body, 0, 0x02, r, rEnd);
      UnderIsExact(body, rEnd, 0x02, s, sEnd);
      IntIsExact(r, sig[..32]);
      IntIsExact(s, sig[32..]);
      assert sig[..32] + sig[32..] == sig;
    }
  }

  lemma Halves(r: bytes, s: bytes, x: bytes, y: bytes)
    requires Stands32(r, x) && Stands32(s, y)
    ensures |x + y| == 64 && (x + y)[..32] == x && (x + y)[32..] == y
  {
  }
}
