/** The DER writer (crates/mat-controller/src/asn1.rs) and the DER reader (crates/mat-controller/src/x509.rs). */
module Der {
  import opened Wrappers
  import opened LittleEndian

  const MAX_LEN: nat := 0xFFFF

  /** A length in its shortest form. */
  function LengthBytes(n: nat): bytes
    requires n <= MAX_LEN
  {
    if n < 128 then [n] else if n < 256 then [0x81, n] else [0x82, n / 256, n % 256]
  }

  /** A tag, a length and the content. */
  function Tlv(tag: uint8, content: bytes): bytes
    requires |content| <= MAX_LEN
  {
    [tag] + LengthBytes(|content|) + content
  }

  function Word(hi: uint8, lo: uint8): nat {
    var h: nat := hi;
    h * 256 + lo
  }

  // ---------------------------------------------------------------- reading

  datatype Item = Item(tag: uint8, content: bytes, raw: bytes)

  datatype DerError =
    | TruncatedTag | TruncatedLength | UnsupportedLength | TruncatedContent | UnexpectedTag

  /** The length at `pos`: its value and where the content starts. */
  function ReadLength(buf: bytes, pos: nat): Result<(nat, nat), DerError> {
    if pos >= |buf| then Err(TruncatedLength)
    else if buf[pos] < 0x80 then Ok((buf[pos], pos + 1))
    else if buf[pos] == 0x81 then
      if pos + 1 >= |buf| then Err(TruncatedLength) else Ok((buf[pos + 1], pos + 2))
    else if buf[pos] == 0x82 then
      if pos + 2 >= |buf| then Err(TruncatedLength) else Ok((Word(buf[pos + 1], buf[pos + 2]), pos + 3))
    else Err(UnsupportedLength)
  }

  /** The item at `pos` and where it ends. */
  function ReadItem(buf: bytes, pos: nat): Result<(Item, nat), DerError> {
    if pos >= |buf| then Err(TruncatedTag)
    else
      match ReadLength(buf, pos + 1)
      case Err(e) => Err(e)
      case Ok((len, start)) =>
        if start + len > |buf| then Err(TruncatedContent)
        else Ok((Item(buf[pos], buf[start..start + len], buf[pos..start + len]), start + len))
  }

  class DerReader {
    const buf: bytes
    var pos: nat

    constructor (buf: bytes)
      ensures this.buf == buf && pos == 0
    {
      this.buf, pos := buf, 0;
    }

    predicate IsEmpty()
      reads this
    {
      pos >= |buf|
    }

    function PeekTag(): Option<uint8>
      reads this
    {
      if pos < |buf| then Some(buf[pos]) else None
    }

    /** The next item; where a failing read stops is of no use to anyone. */
    method Read() returns (r: Result<Item, DerError>)
      modifies this
      ensures r.Ok? <==> ReadItem(buf, old(pos)).Ok?
      ensures r.Ok? ==> ReadItem(buf, old(pos)) == Ok((r.value, pos))
      ensures r.Err? ==> ReadItem(buf, old(pos)) == Err(r.error)
    {
      var start := pos;
      if pos >= |buf| { return Err(TruncatedTag); }
      var tag := buf[pos];
      pos := pos + 1;
      if pos >= |buf| { return Err(TruncatedLength); }
      var lenByte := buf[pos];
      pos := pos + 1;
      var len: nat := 0;
      if lenByte < 0x80 {
        len := lenByte;
      } else if lenByte == 0x81 {
        if pos >= |buf| { return Err(TruncatedLength); }
        len := buf[pos];
        pos := pos + 1;
      } else if lenByte == 0x82 {
        if pos + 1 >= |buf| { return Err(TruncatedLength); }
        len := Word(buf[pos], buf[pos + 1]);
        pos := pos + 2;
      } else {
        return Err(UnsupportedLength);
      }
      var contentStart := pos;
      var contentEnd := contentStart + len;
      if contentEnd > |buf| { return Err(TruncatedContent); }
      pos := contentEnd;
      return Ok(Item(tag, buf[contentStart..contentEnd], buf[start..contentEnd]));
    }

    method Expect(tag: uint8) returns (r: Result<bytes, DerError>)
      modifies this
      ensures r == match ReadItem(buf, old(pos))
                   case Err(e) => Err(e)
                   case Ok((item, _)) => if item.tag == tag then Ok(item.content) else Err(UnexpectedTag)
      ensures r.Ok? ==> pos == ReadItem(buf, old(pos)).value.1
    {
      hide ReadItem;
      var item := Read();
      if item.Err? { return Err(item.error); }
      if item.value.tag != tag { return Err(UnexpectedTag); }
      return Ok(item.value.content);
    }
  }

  // ---------------------------------------------------------------- the round trip

  lemma LengthReads(buf: bytes, pos: nat, n: nat)
    requires n <= MAX_LEN && At(buf, pos, LengthBytes(n))
    ensures ReadLength(buf, pos) == Ok((n, pos + |LengthBytes(n)|))
  {
    var p := LengthBytes(n);
    var s := buf[pos..pos + |p|];
    assert buf[pos] == s[0] == p[0];
    if |p| > 1 { assert buf[pos + 1] == s[1] == p[1]; }
    if |p| > 2 { assert buf[pos + 2] == s[2] == p[2]; }
    assert n >= 256 ==> Word(n / 256, n % 256) == n;
    hide Word;
  }

  /** Whatever follows it, an item that was written reads back as itself, and reading stops right behind it. */
  lemma ReadTlv(buf: bytes, pos: nat, tag: uint8, content: bytes)
    requires |content| <= MAX_LEN && At(buf, pos, Tlv(tag, content))
    ensures ReadItem(buf, pos) == Ok((Item(tag, content, Tlv(tag, content)), pos + |Tlv(tag, content)|))
  {
    hide LengthBytes, ReadLength;
    var len := LengthBytes(|content|);
    AtConcat(buf, pos, [tag] + len, content);
    AtConcat(buf, pos, [tag], len);
    LengthReads(buf, pos + 1, |content|);
    assert buf[pos] == buf[pos..pos + 1][0];
  }

  /** Different items have different encodings, and none is the beginning of another. */
  lemma TlvIsPrefixFree(t: uint8, c: bytes, u: uint8, d: bytes, rest: bytes)
    requires |c| <= MAX_LEN && |d| <= MAX_LEN && Tlv(t, c) + rest == Tlv(u, d)
    ensures t == u && c == d && rest == []
  {
    hide Tlv, ReadItem;
    var buf := Tlv(u, d);
    AtWhole(buf);
    ReadTlv(buf, 0, u, d);
    AtConcat(buf, 0, Tlv(t, c), rest);
    ReadTlv(buf, 0, t, c);
  }
}
