/** The base 38 of QR codes (crates/mat-controller/src/setup_code.rs), section 5.1 of the Matter Core
    Specification. */
module Base38 {
  import opened Wrappers
  import opened Power
  import opened LittleEndian

  const ALPHABET := "0123456789ABCDEFGHIJKLMNOPQRSTUVWXYZ-."

  datatype SetupCodeError =
    | BadLength | BadChar | BadCheckDigit | BadPrefix | ZeroPasscode | PasscodeOutOfRange | BadFirstDigit
    | VidPidMismatch | NonCanonicalBase38

  function CharOf(d: nat): char
    requires d < 38
  {
    ALPHABET[d]
  }

  /** The number a character stands for. */
  function CharValue(c: char): Option<nat> {
    if '0' <= c <= '9' then Some(c as int - '0' as int)
    else if 'A' <= c <= 'Z' then Some(c as int - 'A' as int + 10)
    else if c == '-' then Some(36)
    else if c == '.' then Some(37)
    else None
  }

  /** Finds a character in the alphabet. */
  method CharPosition(c: char) returns (r: Option<nat>)
    ensures r == CharValue(c)
  {
    for k := 0 to 38
      invariant forall j :: 0 <= j < k ==> CharOf(j) != c
    {
      CharOfValue(k);
      if CharOf(k) == c { return Some(k); }
    }
    if CharValue(c).Some? { ValueOfChar(c); }
    return None;
  }

  lemma CharOfValue(k: nat)
    requires k < 38
    ensures CharValue(CharOf(k)) == Some(k)
  {
    if k < 10 {
      DigitOfValue(k);
    } else if k < 36 {
      LetterOfValue(k);
    }
  }

  lemma DigitOfValue(k: nat)
    requires k < 10
    ensures CharOf(k) as int == '0' as int + k
  {
  }

  lemma LetterOfValue(k: nat)
    requires 10 <= k < 36
    ensures CharOf(k) as int == 'A' as int + k - 10
  {
  }

  lemma ValueOfChar(c: char)
    requires CharValue(c).Some?
    ensures CharValue(c).value < 38 && CharOf(CharValue(c).value) == c
  {
  }

  // ---------------------------------------------------------------- chunks

  /** `n` characters for a value, the lowest digit first. */
  function Chunk(value: nat, n: nat): (r: string)
    ensures |r| == n
  {
    if n == 0 then "" else [CharOf(value % 38)] + Chunk(value / 38, n - 1)
  }

  predicate AllChars(s: string) { forall k :: 0 <= k < |s| ==> CharValue(s[k]).Some? }

  /** The value of a chunk. */
  function ChunkValue(s: string): nat
    requires AllChars(s)
  {
    if s == "" then 0 else CharValue(s[0]).value + 38 * ChunkValue(s[1..])
  }

  method EncodeChunk(value: nat, n: nat) returns (r: string)
    ensures r == Chunk(value, n)
  {
    hide CharOf;
    r := "";
    var v := value;
    for k := 0 to n
      invariant |r| == k && r + Chunk(v, n - k) == Chunk(value, n)
    {
      assert r + Chunk(v, n - k) == (r + [CharOf(v % 38)]) + Chunk(v / 38, n - k - 1);
      r := r + [CharOf(v % 38)];
      v := v / 38;
    }
  }

  lemma {:induction false} ChunkReads(value: nat, n: nat)
    requires value < Pow(38, n)
    ensures AllChars(Chunk(value, n)) && ChunkValue(Chunk(value, n)) == value
    decreases n
  {
    hide CharOf;
    if n > 0 {
      ChunkReads(value / 38, n - 1);
      CharOfValue(value % 38);
      var s := Chunk(value, n);
      assert s[1..] == Chunk(value / 38, n - 1);
      forall k | 0 <= k < |s|
        ensures CharValue(s[k]).Some?
      {
        if k > 0 { assert s[k] == s[1..][k - 1]; }
      }
      hide CharValue;
    }
  }

  lemma Digit38(d: nat, v: nat)
    requires d < 38
    ensures (d + 38 * v) % 38 == d && (d + 38 * v) / 38 == v
  {
  }

  lemma {:induction false} ChunkWrites(s: string)
    requires AllChars(s)
    ensures Chunk(ChunkValue(s), |s|) == s && ChunkValue(s) < Pow(38, |s|)
    decreases |s|
  {
    hide CharValue, CharOf;
    if s != "" {
      assert forall k :: 0 <= k < |s[1..]| ==> s[1..][k] == s[k + 1];
      ChunkWrites(s[1..]);
      ValueOfChar(s[0]);
      hide Chunk;
      ChunkStep(CharValue(s[0]).value, ChunkValue(s[1..]), |s|);
      assert [s[0]] + s[1..] == s;
    }
  }

  lemma ChunkStep(d: nat, v: nat, n: nat)
    requires d < 38 && n > 0
    ensures Chunk(d + 38 * v, n) == [CharOf(d)] + Chunk(v, n - 1)
  {
    hide CharOf;
    Digit38(d, v);
  }

  /** A chunk as bytes; chunks of values that do not fit the bytes are refused. */
  function DecodedChunk(s: string, n: nat): Result<bytes, SetupCodeError> {
    if !AllChars(s) then Err(BadChar)
    else if ChunkValue(s) >= Pow(0x100, n) then Err(NonCanonicalBase38)
    else Ok(Le(ChunkValue(s), n))
  }

  /** Reads a chunk character by character. */
  method DecodeChunk(s: string, n: nat) returns (r: Result<bytes, SetupCodeError>)
    ensures r == DecodedChunk(s, n)
  {
    var value: nat, pow: nat := 0, 1;
    SumNothing(s);
    for k := 0 to |s|
      invariant AllChars(s[..k]) && pow == Pow(38, k) && value == ChunkValue(s[..k])
    {
      var d := CharPosition(s[k]);
      if d.None? { return Err(BadChar); }
      hide CharValue;
      assert s[..k + 1] == s[..k] + [s[k]];
      ChunkSnoc(s[..k], s[k]);
      value := value + d.value * pow;
      pow := 38 * pow;
    }
    assert s[..|s|] == s;
    if value >= Pow(0x100, n) { return Err(NonCanonicalBase38); }
    return Ok(Le(value, n));
  }

  lemma SumNothing(s: string)
    ensures AllChars(s[..0]) && ChunkValue(s[..0]) == 0
  {
  }

  lemma {:induction false} ChunkSnoc(s: string, c: char)
    requires AllChars(s) && CharValue(c).Some?
    ensures AllChars(s + [c]) && ChunkValue(s + [c]) == ChunkValue(s) + CharValue(c).value * Pow(38, |s|)
    decreases |s|
  {
    hide CharValue;
    if s == "" {
      assert s + [c] == [c] && [c][1..] == "";
    } else {
      assert (s + [c])[1..] == s[1..] + [c];
      assert forall k :: 0 <= k < |s[1..]| ==> s[1..][k] == s[k + 1];
      ChunkSnoc(s[1..], c);
      Distribute(ChunkValue(s[1..]), CharValue(c).value, Pow(38, |s| - 1));
    }
  }

  lemma Distribute(a: nat, b: nat, p: nat)
    ensures 38 * (a + b * p) == 38 * a + b * (38 * p)
  {
  }

  // ---------------------------------------------------------------- texts

  /** Characters for groups of three bytes, then for what is left. */
  function Encode(b: bytes): string
    decreases |b|
  {
    if b == [] then ""
    else if |b| == 1 then Chunk(FromLe(b), 2)
    else if |b| == 2 then Chunk(FromLe(b), 4)
    else Chunk(FromLe(b[..3]), 5) + Encode(b[3..])
  }

  /** Bytes of groups of five characters, then of what is left. */
  function Groups(s: string): Result<bytes, SetupCodeError>
    requires |s| % 5 == 0 || |s| % 5 == 4 || |s| % 5 == 2
    decreases |s|
  {
    if s == "" then Ok([])
    else if |s| == 4 then DecodedChunk(s, 2)
    else if |s| == 2 then DecodedChunk(s, 1)
    else
      match DecodedChunk(s[..5], 3)
      case Err(e) => Err(e)
      case Ok(b) => (match Groups(s[5..]) case Err(e) => Err(e) case Ok(rest) => Ok(b + rest))
  }

  function Decode(s: string): Result<bytes, SetupCodeError> {
    if exists k :: 0 <= k < |s| && s[k] as int > 127 then Err(BadChar)
    else if |s| % 5 != 0 && |s| % 5 != 4 && |s| % 5 != 2 then Err(BadLength)
    else Groups(s)
  }

  method EncodeBytes(b: bytes) returns (out: string)
    ensures out == Encode(b)
  {
    hide Chunk, FromLe;
    out := "";
    var i := 0;
    while i < |b|
      invariant 0 <= i <= |b| && out + Encode(b[i..]) == Encode(b)
    {
      var left := |b| - i;
      assert left >= 3 ==> b[i..][..3] == b[i..i + 3] && b[i..][3..] == b[i + 3..];
      assert left < 3 ==> Encode(b[|b|..]) == "";
      var chunk;
      if left == 1 {
        chunk := EncodeChunk(FromLe(b[i..]), 2);
      } else if left == 2 {
        chunk := EncodeChunk(FromLe(b[i..]), 4);
      } else {
        chunk := EncodeChunk(FromLe(b[i..i + 3]), 5);
      }
      var next := if left >= 3 then i + 3 else |b|;
      assert Encode(b[i..]) == chunk + Encode(b[next..]);
      assert out + (chunk + Encode(b[next..])) == (out + chunk) + Encode(b[next..]);
      out := out + chunk;
      i := next;
    }
    assert b[|b|..] == [] && Encode([]) == "" && out + "" == out;
  }

  method DecodeText(s: string) returns (r: Result<bytes, SetupCodeError>)
    ensures r == Decode(s)
  {
    hide DecodedChunk;
    if exists k :: 0 <= k < |s| && s[k] as int > 127 { return Err(BadChar); }
    var tail := |s| % 5;
    if tail != 0 && tail != 4 && tail != 2 { return Err(BadLength); }
    var out: bytes := [];
    assert s[0..] == s;
    ghost var all := Groups(s);
    assert all.Ok? ==> [] + all.value == all.value;
    var full := |s| / 5;
    for g := 0 to full
      invariant var rest := Groups(s[5 * g..]);
                if rest.Err? then all == rest else all == Ok(out + rest.value)
    {
      var i := 5 * g;
      assert s[i..][..5] == s[i..i + 5] && s[i..][5..] == s[i + 5..] && 5 * (g + 1) == i + 5;
      var b := DecodeChunk(s[i..i + 5], 3);
      if b.Err? { return Err(b.error); }
      assert Groups(s[i + 5..]).Ok? ==>
          out + (b.value + Groups(s[i + 5..]).value) == (out + b.value) + Groups(s[i + 5..]).value;
      out := out + b.value;
    }
    if tail == 4 {
      var b := DecodeChunk(s[5 * full..], 2);
      if b.Err? { return Err(b.error); }
      out := out + b.value;
    } else if tail == 2 {
      var b := DecodeChunk(s[5 * full..], 1);
      if b.Err? { return Err(b.error); }
      out := out + b.value;
    } else {
      assert out + [] == out;
    }
    return Ok(out);
  }

  // ---------------------------------------------------------------- a bijection

  lemma Powers()
    ensures Pow(38, 2) == 1444 && Pow(38, 4) == 2085136 && Pow(38, 5) == 79235168
    ensures Pow(0x100, 1) == 0x100 && Pow(0x100, 2) == 0x1_0000 && Pow(0x100, 3) == 0x100_0000
  {
    assert Pow(38, 1) == 38 && Pow(38, 2) == 38 * Pow(38, 1) && Pow(38, 3) == 38 * Pow(38, 2) && Pow(38, 4) == 38 * Pow(38, 3);
    assert Pow(38, 5) == 38 * Pow(38, 4);
    assert Pow(0x100, 1) == 0x100 * Pow(0x100, 0) && Pow(0x100, 2) == 0x100 * Pow(0x100, 1) && Pow(0x100, 3) == 0x100 * Pow(0x100, 2);
  }

  /** A few bytes and their chunk. */
  lemma BytesChunk(b: bytes, n: nat)
    requires (|b| == 1 && n == 2) || (|b| == 2 && n == 4) || (|b| == 3 && n == 5)
    ensures DecodedChunk(Chunk(FromLe(b), n), |b|) == Ok(b)
    ensures forall k :: 0 <= k < n ==> Chunk(FromLe(b), n)[k] as int <= 127
  {
    hide Chunk, FromLe, Le, Pow, Pow, CharValue;
    FromLeBound(b);
    Powers();
    ChunkReads(FromLe(b), n);
    FromLeRoundTrip(b);
    var s := Chunk(FromLe(b), n);
    forall k | 0 <= k < n
      ensures s[k] as int <= 127
    {
      CharIsAscii(s[k]);
    }
  }

  lemma CharIsAscii(c: char)
    ensures CharValue(c).Some? ==> c as int <= 127
  {
  }

  lemma GroupsCons(a: string, b: string)
    requires |a| == 5 && (|b| % 5 == 0 || |b| % 5 == 4 || |b| % 5 == 2)
    ensures |a + b| % 5 == |b| % 5
    ensures Groups(a + b) == match DecodedChunk(a, 3)
                             case Err(e) => Err(e)
                             case Ok(x) => match Groups(b) case Err(e) => Err(e) case Ok(y) => Ok(x + y)
  {
    hide DecodedChunk;
    assert (a + b)[..5] == a && (a + b)[5..] == b;
  }

  /** Every byte string is read back from its encoding. */
  lemma {:induction false} EncodeReads(b: bytes)
    ensures var s := Encode(b);
            && (|s| % 5 == 0 || |s| % 5 == 4 || |s| % 5 == 2) && Groups(s) == Ok(b)
            && forall k :: 0 <= k < |s| ==> s[k] as int <= 127
    decreases |b|
  {
    hide Chunk, FromLe, DecodedChunk;
    if 0 < |b| < 3 {
      BytesChunk(b, 2 * |b|);
    } else if |b| >= 3 {
      BytesChunk(b[..3], 5);
      EncodeReads(b[3..]);
      GroupsCons(Chunk(FromLe(b[..3]), 5), Encode(b[3..]));
      assert b[..3] + b[3..] == b;
      hide Groups;
    }
  }

  lemma DecodeOfEncode(b: bytes)
    ensures Decode(Encode(b)) == Ok(b)
  {
    EncodeReads(b);
    hide Encode, Groups;
  }

  lemma ChunkOfDecoded(s: string, n: nat)
    requires DecodedChunk(s, n).Ok?
    ensures |DecodedChunk(s, n).value| == n && Chunk(FromLe(DecodedChunk(s, n).value), |s|) == s
  {
    hide Chunk, FromLe, Le, Pow, Pow, CharValue, ChunkValue;
    ChunkWrites(s);
    LeRoundTrip(ChunkValue(s), n);
  }

  /** Every accepted text is the encoding of the bytes it was read as. */
  lemma {:induction false} EncodeOfGroups(s: string)
    requires (|s| % 5 == 0 || |s| % 5 == 4 || |s| % 5 == 2) && Groups(s).Ok?
    ensures Encode(Groups(s).value) == s
    decreases |s|
  {
    hide Chunk, FromLe, DecodedChunk;
    if |s| == 4 {
      ChunkOfDecoded(s, 2);
    } else if |s| == 2 {
      ChunkOfDecoded(s, 1);
    } else if s != "" {
      ChunkOfDecoded(s[..5], 3);
      EncodeOfGroups(s[5..]);
      var b, rest := DecodedChunk(s[..5], 3).value, Groups(s[5..]).value;
      assert (b + rest)[..3] == b && (b + rest)[3..] == rest;
      assert s[..5] + s[5..] == s;
      hide Groups;
    }
  }

  /** Accepted texts and byte strings correspond one to one. */
  lemma Bijection(s: string, b: bytes)
    ensures Decode(s) == Ok(b) <==> Encode(b) == s
  {
    DecodeOfEncode(b);
    hide Encode, Groups;
    if Decode(s).Ok? { EncodeOfGroups(s); }
  }
}
