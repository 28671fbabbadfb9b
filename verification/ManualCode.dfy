/** Manual pairing codes (crates/mat-controller/src/setup_code.rs), section 5.1 of the Matter Core
    Specification. A text stands for its UTF-8 bytes, one character for each. */
module ManualCode {
  import opened Wrappers
  import opened Power
  import opened Base38
  import opened Verhoeff

  datatype Code = Code(passcode: nat, shortDiscriminator: nat)

  const MAX_PASSCODE: nat := 99_999_998

  predicate AllDigits(s: string) { forall k :: 0 <= k < |s| ==> '0' <= s[k] <= '9' }

  function DigitsOf(s: string): (ds: seq<Digit>)
    requires AllDigits(s)
    ensures |ds| == |s| && forall k :: 0 <= k < |s| ==> ds[k] == s[k] as int - '0' as int
  {
    seq(|s|, k requires 0 <= k < |s| => s[k] as int - '0' as int)
  }

  function TextOf(ds: seq<Digit>): (s: string)
    ensures |s| == |ds| && AllDigits(s) && DigitsOf(s) == ds
  {
    var s := seq(|ds|, k requires 0 <= k < |ds| => (ds[k] + '0' as int) as char);
    assert forall k :: 0 <= k < |ds| ==> '0' <= s[k] <= '9';
    assert DigitsOf(s) == ds;
    s
  }

  /** The number digits spell, most significant first. */
  function Number(ds: seq<Digit>): nat {
    if ds == [] then 0 else 10 * Number(ds[..|ds| - 1]) + ds[|ds| - 1]
  }

  /** `w` digits of a number, with leading zeros. */
  function Padded(n: nat, w: nat): (ds: seq<Digit>)
    ensures |ds| == w
  {
    if w == 0 then [] else Padded(n / 10, w - 1) + [n % 10]
  }

  lemma {:induction false} PaddedReads(n: nat, w: nat)
    requires n < Pow(10, w)
    ensures Number(Padded(n, w)) == n
  {
    if w > 0 {
      PaddedReads(n / 10, w - 1);
      var ds := Padded(n, w);
      assert ds[..|ds| - 1] == Padded(n / 10, w - 1);
    }
  }

  /** The fields of a code of 11 or 21 digits. */
  function ParseDigits(ds: seq<Digit>): Result<Code, SetupCodeError>
    requires |ds| == 11 || |ds| == 21
  {
    if !Valid(ds) then Err(BadCheckDigit)
    else if ds[0] > 7 then Err(BadFirstDigit)
    else if (ds[0] / 4 == 1) != (|ds| == 21) then Err(VidPidMismatch)
    else
      var n := Number(ds[1..6]);
      var passcode := Number(ds[6..10]) * 0x4000 + n % 0x4000;
      if passcode == 0 then Err(ZeroPasscode)
      else if passcode > MAX_PASSCODE then Err(PasscodeOutOfRange)
      else
        var first: nat := ds[0];
        Ok(Code(passcode, first % 4 * 4 + n / 0x4000 % 4))
  }

  function ParseManualCode(s: string): Result<Code, SetupCodeError> {
    if |s| != 11 && |s| != 21 then Err(BadLength)
    else if !AllDigits(s) then Err(BadChar)
    else ParseDigits(DigitsOf(s))
  }

  /** The digits of a code without its check digit. */
  function Body(passcode: nat, disc: nat): (ds: seq<Digit>)
    requires passcode <= MAX_PASSCODE && disc < 16
    ensures |ds| == 10
  {
    [disc / 4] + Padded(disc % 4 * 0x4000 + passcode % 0x4000, 5) + Padded(passcode / 0x4000, 4)
  }

  function EncodeDigits(passcode: nat, disc: nat): (ds: seq<Digit>)
    requires passcode <= MAX_PASSCODE && disc < 16
    ensures |ds| == 11
  {
    Body(passcode, disc) + [CheckDigit(Body(passcode, disc))]
  }

  function EncodeManualCode(passcode: nat, disc: nat): string
    requires passcode <= MAX_PASSCODE && disc < 16
  {
    TextOf(EncodeDigits(passcode, disc))
  }

  lemma Powers()
    ensures Pow(10, 4) == 10000 && Pow(10, 5) == 100000
  {
    assert Pow(10, 1) == 10 && Pow(10, 2) == 10 * Pow(10, 1) && Pow(10, 3) == 10 * Pow(10, 2) && Pow(10, 4) == 10 * Pow(10, 3);
    assert Pow(10, 5) == 10 * Pow(10, 4);
  }

  /** Every passcode and short discriminator are read back from their code, but for passcode 0, which is refused. */
  lemma ManualRoundTrip(passcode: nat, disc: nat)
    requires passcode <= MAX_PASSCODE && disc < 16
    ensures ParseManualCode(EncodeManualCode(passcode, disc))
            == if passcode == 0 then Err(ZeroPasscode) else Ok(Code(passcode, disc))
  {
    hide CheckDigit, Padded, Number, Pow;
    var n, m := disc % 4 * 0x4000 + passcode % 0x4000, passcode / 0x4000;
    Powers();
    PaddedReads(n, 5);
    PaddedReads(m, 4);
    var body := Body(passcode, disc);
    var ds := EncodeDigits(passcode, disc);
    assert ds[..10] == body && ds[1..6] == Padded(n, 5) && ds[6..10] == Padded(m, 4);
    FieldsBack(passcode, disc);
  }

  lemma FieldsBack(passcode: nat, disc: nat)
    requires disc < 16
    ensures var n, m := disc % 4 * 0x4000 + passcode % 0x4000, passcode / 0x4000;
            && m * 0x4000 + n % 0x4000 == passcode && n / 0x4000 % 4 == disc % 4
            && disc / 4 % 4 * 4 + disc % 4 == disc && disc / 4 <= 3
  {
  }

  /** A code with one wrong digit is refused because of its check digit. */
  lemma WrongDigitRefused(s: string, j: nat, c: char)
    requires ParseManualCode(s).Ok? && j < |s| && '0' <= c <= '9' && c != s[j]
    ensures ParseManualCode(s[j := c]) == Err(BadCheckDigit)
  {
    hide Valid, Number;
    var x: Digit := c as int - '0' as int;
    ChangeShows(DigitsOf(s), j, x);
    assert DigitsOf(s[j := c]) == DigitsOf(s)[j := x];
  }

  /** A code with two different neighbouring digits swapped is refused because of its check digit. */
  lemma SwappedDigitsRefused(s: string, j: nat)
    requires ParseManualCode(s).Ok? && j + 1 < |s| && s[j] != s[j + 1]
    ensures ParseManualCode(s[j := s[j + 1]][j + 1 := s[j]]) == Err(BadCheckDigit)
  {
    hide Valid, Number;
    var ds, t := DigitsOf(s), s[j := s[j + 1]][j + 1 := s[j]];
    SwapOfNeighboursShows(ds, j);
    assert DigitsOf(t) == ds[j := ds[j + 1]][j + 1 := ds[j]];
  }

  method ParseCode(s: string) returns (r: Result<Code, SetupCodeError>)
    ensures r == ParseManualCode(s)
  {
    hide Number, CheckDigit;
    if |s| != 11 && |s| != 21 { return Err(BadLength); }
    var ds: seq<Digit> := [];
    for k := 0 to |s|
      invariant |ds| == k && AllDigits(s[..k])
      invariant forall j :: 0 <= j < k ==> ds[j] == s[j] as int - '0' as int
    {
      if !('0' <= s[k] <= '9') { return Err(BadChar); }
      ds := ds + [s[k] as int - '0' as int];
    }
    assert s[..|s|] == s && ds == DigitsOf(s);
    var check := VerhoeffCheckDigit(ds[..|ds| - 1]);
    if check != ds[|ds| - 1] { return Err(BadCheckDigit); }
    var first: nat := ds[0];
    if first > 7 { return Err(BadFirstDigit); }
    if (first / 4 == 1) != (|s| == 21) { return Err(VidPidMismatch); }
    var n := Number(ds[1..6]);
    var passcode := Number(ds[6..10]) * 0x4000 + n % 0x4000;
    if passcode == 0 { return Err(ZeroPasscode); }
    if passcode > MAX_PASSCODE { return Err(PasscodeOutOfRange); }
    return Ok(Code(passcode, first % 4 * 4 + n / 0x4000 % 4));
  }
}
