/** Certificate times: written from Matter epochs (crates/mat-controller/src/cert.rs), read back to Unix seconds
    (crates/mat-controller/src/x509.rs, crates/mat-controller/src/attestation.rs). */
module CertTime {
  import opened Wrappers
  import opened LittleEndian
  import opened Calendar
  import opened Der

  const UTC_TIME: uint8 := 0x17
  const GENERALIZED_TIME: uint8 := 0x18
  const MATTER_EPOCH := 946_684_800
  const ZULU: uint8 := 'Z' as uint8

  /** A point in time as a certificate writes it. */
  datatype Stamp = Stamp(date: Date, hour: int, minute: int, second: int)

  // ---------------------------------------------------------------- writing

  function Two(n: int): bytes
    requires 0 <= n < 100
  {
    [48 + n / 10, 48 + n % 10]
  }

  function Four(n: int): bytes
    requires 0 <= n < 10000
  {
    Two(n / 100) + Two(n % 100)
  }

  ghost predicate Printable(t: Stamp) {
    && 0 <= t.date.year < 10000 && 0 <= t.date.month < 100 && 0 <= t.date.day < 100
    && 0 <= t.hour < 100 && 0 <= t.minute < 100 && 0 <= t.second < 100
  }

  predicate UsesUtc(year: int) { 1950 <= year <= 2049 }

  function Rest(t: Stamp): bytes
    requires Printable(t)
  {
    Two(t.date.month) + Two(t.date.day) + Two(t.hour) + Two(t.minute) + Two(t.second)
  }

  /** The characters of a time: two digits for years from 1950 to 2049, four otherwise. */
  function TimeText(t: Stamp): bytes
    requires Printable(t)
  {
    (if UsesUtc(t.date.year) then Two(t.date.year % 100) else Four(t.date.year)) + Rest(t) + [ZULU]
  }

  /** Seconds since 1970 as a date and a time of day. */
  function StampOf(unix: int): Stamp {
    var s := unix % 86400;
    Stamp(CivilFromDays(unix / 86400), s / 3600, s % 3600 / 60, s % 60)
  }

  /** The time for "no well-defined expiration", 99991231235959Z. */
  function NoExpiration(): bytes { Four(9999) + Two(12) + Two(31) + Two(23) + Two(59) + Two(59) + [ZULU] }

  /** Years of Matter epochs. */
  lemma EpochYears(epoch: uint32)
    ensures var t := StampOf(epoch + MATTER_EPOCH);
            && 2000 <= t.date.year <= 2136 && ValidDate(t.date)
            && 0 <= t.hour <= 23 && 0 <= t.minute <= 59 && 0 <= t.second <= 59
  {
    hide CivilFromDays, DaysFromCivil, ValidDate;
    var days := (epoch + MATTER_EPOCH) / 86400;
    DaysOfCivil(days);
    YearBounds(days);
  }

  lemma {:induction false} LaterDays(a: Date, b: Date)
    requires ValidDate(a) && ValidDate(b) && a.year < b.year
    ensures DaysFromCivil(a.year, a.month, a.day) < DaysFromCivil(b.year, b.month, b.day)
  {
    hide DaysFromCivil, CivilFromDays, YearStart, LastDay, DaysIn, MonthStart;
    var e1, y1, d1 := DateSplit(a);
    var e2, y2, d2 := DateSplit(b);
    DaysOfPlaced(a, e1, y1, d1);
    DaysOfPlaced(b, e2, y2, d2);
    if 400 * e1 + y1 < 400 * e2 + y2 {
      StartsGrow(e1, y1, e2, y2);
    } else {
      assert e1 == e2 && y1 == y2;
    }
  }

  /** March years follow each other. */
  lemma StartsGrow(e1: int, y1: int, e2: int, y2: int)
    requires 0 <= y1 < 400 && 0 <= y2 < 400 && 400 * e1 + y1 < 400 * e2 + y2
    ensures e1 * ERA_DAYS + YearStart(y1) + LastDay(y1) < e2 * ERA_DAYS + YearStart(y2)
  {
    hide YearStart, LastDay;
    YearLength(y1);
    if e1 == e2 {
      StartOrder(y1 + 1, y2);
    } else {
      StartOrder(0, y2);
      if y1 < 399 {
        StartOrder(y1 + 1, 399);
        YearLength(399);
        LastDayIsPositive(399);
      }
    }
  }

  lemma LastDayIsPositive(y: int)
    ensures LastDay(y) > 0
  {
  }

  lemma StartOrder(a: int, b: int)
    requires 0 <= a <= b
    ensures YearStart(a) <= YearStart(b)
  {
  }

  lemma YearBounds(days: int)
    requires 10957 <= days <= 60667
    ensures 2000 <= CivilFromDays(days).year <= 2136
  {
    Bounds();
    hide CivilFromDays, DaysFromCivil;
    var x := CivilFromDays(days);
    DaysOfCivil(days);
    if x.year < 2000 { LaterDays(x, Date(2000, 1, 1)); }
    if x.year > 2136 { LaterDays(Date(2136, 12, 31), x); }
    hide ValidDate;
  }

  lemma Bounds()
    ensures DaysFromCivil(2000, 1, 1) == 10957 && DaysFromCivil(2136, 12, 31) >= 60667
    ensures ValidDate(Date(2000, 1, 1)) && ValidDate(Date(2136, 12, 31))
  {
  }

  /** The DER time of a Matter epoch; epoch 0 stands for no expiration. */
  function Asn1Time(epoch: uint32): bytes {
    if epoch == 0 then Tlv(GENERALIZED_TIME, NoExpiration())
    else
      EpochYears(epoch);
      var t := StampOf(epoch + MATTER_EPOCH);
      Tlv(if UsesUtc(t.date.year) then UTC_TIME else GENERALIZED_TIME, TimeText(t))
  }

  // ---------------------------------------------------------------- reading

  predicate IsDigit(b: uint8) { 48 <= b <= 57 }

  /** The number two digits spell. */
  function Num2(s: bytes, k: nat): int
    requires k + 2 <= |s|
  {
    var tens: int, ones: int := s[k], s[k + 1];
    (tens - 48) * 10 + (ones - 48)
  }

  /** The fields of a UTCTime or GeneralizedTime text. */
  function ParseCertTime(raw: bytes): Option<Stamp> {
    if raw == [] || raw[|raw| - 1] != ZULU then None
    else
      var ds := raw[..|raw| - 1];
      if exists k :: 0 <= k < |ds| && !IsDigit(ds[k]) then None
      else if |ds| != 12 && |ds| != 14 then None
      else
        var o := |ds| - 10;
        var year := if o == 2 then (if Num2(ds, 0) < 50 then 2000 + Num2(ds, 0) else 1900 + Num2(ds, 0))
                    else Num2(ds, 0) * 100 + Num2(ds, 2);
        var t := Stamp(Date(year, Num2(ds, o), Num2(ds, o + 2)), Num2(ds, o + 4), Num2(ds, o + 6), Num2(ds, o + 8));
        if t.date.month < 1 || t.date.month > 12 || t.date.day < 1 || t.date.day > 31
           || t.hour > 23 || t.minute > 59 || t.second > 60 then None
        else Some(t)
  }

  function EpochSeconds(t: Stamp): int {
    DaysFromCivil(t.date.year, t.date.month, t.date.day) * 86_400 + t.hour * 3_600 + t.minute * 60 + t.second
  }

  // ---------------------------------------------------------------- the round trip

  lemma TwoReads(n: int)
    requires 0 <= n < 100
    ensures Num2(Two(n), 0) == n && IsDigit(Two(n)[0]) && IsDigit(Two(n)[1])
  {
  }

  /** The text of a valid time reads back as that time. */
  lemma TextReads(t: Stamp)
    requires ValidDate(t.date) && 1950 <= t.date.year < 10000
    requires 0 <= t.hour <= 23 && 0 <= t.minute <= 59 && 0 <= t.second <= 59
    ensures Printable(t) && ParseCertTime(TimeText(t)) == Some(t)
  {
    DaysBound(t.date);
    TextIsFields(t);
    hide Two, IsDigit, AllTwo, TimeText, ParseCertTime, ValidDate;
    var fields := FieldsOf(t);
    var ds := AllTwo(fields);
    assert (ds + [ZULU])[..|ds|] == ds;
    GroupsRead(fields);
    hide Num2;
    FieldsParse(t, ds);
  }

  /** The two-digit groups of a time text. */
  function FieldsOf(t: Stamp): seq<int> {
    (if UsesUtc(t.date.year) then [] else [t.date.year / 100])
    + [t.date.year % 100, t.date.month, t.date.day, t.hour, t.minute, t.second]
  }

  lemma FieldsParse(t: Stamp, ds: bytes)
    requires 1950 <= t.date.year < 10000 && 1 <= t.date.month <= 12 && 1 <= t.date.day <= 31
    requires 0 <= t.hour <= 23 && 0 <= t.minute <= 59 && 0 <= t.second <= 59
    requires |ds| == 2 * |FieldsOf(t)| && forall j :: 0 <= j < |ds| ==> IsDigit(ds[j])
    requires forall k: nat :: k < |FieldsOf(t)| ==> Num2(ds, 2 * k) == FieldsOf(t)[k]
    ensures ParseCertTime(ds + [ZULU]) == Some(t)
  {
    hide Num2, IsDigit;
    assert (ds + [ZULU])[..|ds|] == ds;
    var o := |ds| - 10;
    var f := FieldsOf(t);
    assert Num2(ds, 0) == f[0] && Num2(ds, 2) == f[1];
    assert Num2(ds, o) == f[o / 2] && Num2(ds, o + 2) == f[o / 2 + 1] && Num2(ds, o + 4) == f[o / 2 + 2];
    assert Num2(ds, o + 6) == f[o / 2 + 3] && Num2(ds, o + 8) == f[o / 2 + 4];
  }

  lemma DaysBound(x: Date)
    requires ValidDate(x)
    ensures 1 <= x.day <= 31
  {
  }

  /** Numbers below 100, two digits each. */
  function AllTwo(fields: seq<int>): (r: bytes)
    requires forall k :: 0 <= k < |fields| ==> 0 <= fields[k] < 100
    ensures |r| == 2 * |fields|
  {
    hide Two;
    if fields == [] then [] else TwoLength(fields[0]); Two(fields[0]) + AllTwo(fields[1..])
  }

  lemma TwoLength(n: int)
    requires 0 <= n < 100
    ensures |Two(n)| == 2
  {
  }

  lemma {:induction false} AllTwoReads(fields: seq<int>, k: nat)
    requires (forall j :: 0 <= j < |fields| ==> 0 <= fields[j] < 100) && k < |fields|
    ensures var r := AllTwo(fields);
            Num2(r, 2 * k) == fields[k] && IsDigit(r[2 * k]) && IsDigit(r[2 * k + 1])
  {
    hide IsDigit;
    TwoLength(fields[0]);
    TwoReads(fields[0]);
    hide Two;
    if k > 0 { AllTwoReads(fields[1..], k - 1); }
  }

  lemma GroupsRead(fields: seq<int>)
    requires forall j :: 0 <= j < |fields| ==> 0 <= fields[j] < 100
    ensures var ds := AllTwo(fields);
            && (forall k: nat :: k < |fields| ==> Num2(ds, 2 * k) == fields[k])
            && forall j: nat :: j < |ds| ==> IsDigit(ds[j])
  {
    hide Num2, IsDigit, AllTwo;
    var ds := AllTwo(fields);
    forall k: nat | k < |fields|
      ensures Num2(ds, 2 * k) == fields[k]
    {
      AllTwoReads(fields, k);
    }
    forall j: nat | j < |ds|
      ensures IsDigit(ds[j])
    {
      AllTwoReads(fields, j / 2);
      assert j == 2 * (j / 2) || j == 2 * (j / 2) + 1;
    }
  }

  lemma TextIsFields(t: Stamp)
    requires Printable(t)
    ensures (forall k :: 0 <= k < |FieldsOf(t)| ==> 0 <= FieldsOf(t)[k] < 100)
    ensures TimeText(t) == AllTwo(FieldsOf(t)) + [ZULU]
  {
    var y := t.date.year;
    var tail := [y % 100, t.date.month, t.date.day, t.hour, t.minute, t.second];
    assert AllTwo(tail) == Two(y % 100) + Rest(t) by { SixTwo(y % 100, t.date.month, t.date.day, t.hour, t.minute, t.second); }
    hide Two, AllTwo;
    if UsesUtc(y) {
      assert [] + tail == tail;
    } else {
      assert ([y / 100] + tail)[1..] == tail;
      HeadTwo(y / 100, tail);
    }
  }

  lemma HeadTwo(n: int, fields: seq<int>)
    requires 0 <= n < 100 && forall k :: 0 <= k < |fields| ==> 0 <= fields[k] < 100
    ensures AllTwo([n] + fields) == Two(n) + AllTwo(fields)
  {
    assert ([n] + fields)[1..] == fields;
  }

  lemma SixTwo(a: int, b: int, c: int, d: int, e: int, f: int)
    requires 0 <= a < 100 && 0 <= b < 100 && 0 <= c < 100 && 0 <= d < 100 && 0 <= e < 100 && 0 <= f < 100
    ensures AllTwo([a, b, c, d, e, f]) == Two(a) + (Two(b) + Two(c) + Two(d) + Two(e) + Two(f))
  {
    hide Two, AllTwo;
    var s1, s2, s3, s4, s5 := [b, c, d, e, f], [c, d, e, f], [d, e, f], [e, f], [f];
    assert [a] + s1 == [a, b, c, d, e, f] && [b] + s2 == s1 && [c] + s3 == s2 && [d] + s4 == s3 && [e] + s5 == s4;
    HeadTwo(a, s1); HeadTwo(b, s2); HeadTwo(c, s3); HeadTwo(d, s4); HeadTwo(e, s5);
    LastTwo(f);
    FiveAssoc(Two(b), Two(c), Two(d), Two(e), Two(f));
  }

  lemma LastTwo(f: int)
    requires 0 <= f < 100
    ensures AllTwo([f]) == Two(f)
  {
    HeadTwo(f, []);
    assert [f] + [] == [f];
    hide Two;
  }

  lemma FiveAssoc(b: bytes, c: bytes, d: bytes, e: bytes, f: bytes)
    ensures b + (c + (d + (e + f))) == b + c + d + e + f
  {
  }

  /** The seconds of a time stamp are those it was made from. */
  lemma SecondsOfStamp(unix: int)
    ensures EpochSeconds(StampOf(unix)) == unix
  {
    hide CivilFromDays, DaysFromCivil, ValidDate;
    DaysOfCivil(unix / 86400);
  }

  /** Every Matter epoch but 0, written as a DER time and read back, gives its Unix seconds. Years to 2049 are
      UTCTime, later ones GeneralizedTime. */
  lemma EpochRoundTrip(epoch: uint32, after: bytes)
    requires epoch > 0
    ensures var r := ReadItem(Asn1Time(epoch) + after, 0);
            && r.Ok? && r.value.1 == |Asn1Time(epoch)|
            && r.value.0.tag == (if StampOf(epoch + MATTER_EPOCH).date.year <= 2049 then UTC_TIME else GENERALIZED_TIME)
            && ParseCertTime(r.value.0.content).Some?
            && EpochSeconds(ParseCertTime(r.value.0.content).value) == epoch + MATTER_EPOCH
  {
    hide StampOf, ParseCertTime, EpochSeconds, TimeText, Tlv, ReadItem, ValidDate;
    EpochYears(epoch);
    var t := StampOf(epoch + MATTER_EPOCH);
    TextReads(t);
    TextLength(t);
    SecondsOfStamp(epoch + MATTER_EPOCH);
    var buf := Asn1Time(epoch) + after;
    assert At(buf, 0, Asn1Time(epoch)) by { assert buf[..|Asn1Time(epoch)|] == Asn1Time(epoch); }
    ReadTlv(buf, 0, if UsesUtc(t.date.year) then UTC_TIME else GENERALIZED_TIME, TimeText(t));
  }

  lemma TextLength(t: Stamp)
    requires Printable(t)
    ensures |TimeText(t)| <= 15
  {
  }
}
