/** Exactly which validity times are read, and as what (crates/mat-controller/src/x509.rs). */
module CertTimeExact {
  import opened Wrappers
  import opened Calendar
  import opened CertTime

  /** A month, a day of at most 31, and a time of day in which a minute may have 61 seconds. */
  ghost predicate InClock(t: Stamp) {
    && 0 <= t.date.year < 10000 && 1 <= t.date.month <= 12 && 1 <= t.date.day <= 31
    && 0 <= t.hour <= 23 && 0 <= t.minute <= 59 && 0 <= t.second <= 60
  }

  /** The text in one of its two forms: four digits of the year, or two for years from 1950 to 2049. */
  ghost predicate Spells(raw: bytes, t: Stamp) {
    && InClock(t)
    && (raw == Four(t.date.year) + Rest(t) + [ZULU]
        || (1950 <= t.date.year <= 2049 && raw == Two(t.date.year % 100) + Rest(t) + [ZULU]))
  }

  /** Two digits spell their number. */
  lemma PairIs(s: bytes, k: nat)
    requires k + 2 <= |s| && IsDigit(s[k]) && IsDigit(s[k + 1])
    ensures 0 <= Num2(s, k) < 100 && Two(Num2(s, k)) == s[k..k + 2]
  {
    var tens: int, ones: int := s[k] as int - 48, s[k + 1] as int - 48;
    assert Num2(s, k) == tens * 10 + ones;
    assert s[k..k + 2] == [s[k], s[k + 1]];
  }

  lemma TwoAt(s: bytes, k: nat, n: int)
    requires k + 2 <= |s| && 0 <= n < 100 && s[k..k + 2] == Two(n)
    ensures Num2(s, k) == n && IsDigit(s[k]) && IsDigit(s[k + 1])
  {
    assert s[k] == s[k..k + 2][0] && s[k + 1] == s[k..k + 2][1];
    TwoReads(n);
  }

  lemma RestAt(ds: bytes, o: nat, t: Stamp)
    requires o + 10 == |ds| && InClock(t) && ds[o..] == Rest(t)
    ensures Num2(ds, o) == t.date.month && Num2(ds, o + 2) == t.date.day && Num2(ds, o + 4) == t.hour
    ensures Num2(ds, o + 6) == t.minute && Num2(ds, o + 8) == t.second
    ensures forall k :: o <= k < |ds| ==> IsDigit(ds[k])
  {
    TwoLength(t.date.month); TwoLength(t.date.day); TwoLength(t.hour); TwoLength(t.minute); TwoLength(t.second);
    hide Two, Num2, IsDigit;
    var r := ds[o..];
    assert ds[o..o + 2] == r[..2] == Two(t.date.month);
    assert ds[o + 2..o + 4] == r[2..4] == Two(t.date.day);
    assert ds[o + 4..o + 6] == r[4..6] == Two(t.hour);
    assert ds[o + 6..o + 8] == r[6..8] == Two(t.minute);
    assert ds[o + 8..o + 10] == r[8..10] == Two(t.second);
    TwoAt(ds, o, t.date.month); TwoAt(ds, o + 2, t.date.day); TwoAt(ds, o + 4, t.hour);
    TwoAt(ds, o + 6, t.minute); TwoAt(ds, o + 8, t.second);
    forall k | o <= k < |ds|
      ensures IsDigit(ds[k])
    {
      assert k == o || k == o + 1 || k == o + 2 || k == o + 3 || k == o + 4 || k == o + 5 || k == o + 6 || k == o + 7
             || k == o + 8 || k == o + 9;
    }
  }

  lemma RestOf(ds: bytes, o: nat, t: Stamp)
    requires o + 10 == |ds| && (forall k :: 0 <= k < |ds| ==> IsDigit(ds[k])) && InClock(t)
    requires Num2(ds, o) == t.date.month && Num2(ds, o + 2) == t.date.day && Num2(ds, o + 4) == t.hour
    requires Num2(ds, o + 6) == t.minute && Num2(ds, o + 8) == t.second
    ensures ds[o..] == Rest(t)
  {
    PairIs(ds, o); PairIs(ds, o + 2); PairIs(ds, o + 4); PairIs(ds, o + 6); PairIs(ds, o + 8);
    hide Two, Num2, IsDigit;
    assert ds[o..] == ds[o..o + 2] + ds[o + 2..o + 4] + ds[o + 4..o + 6] + ds[o + 6..o + 8] + ds[o + 8..o + 10];
  }

  predicate AllDigits(ds: bytes) { forall k :: 0 <= k < |ds| ==> IsDigit(ds[k]) }

  /** The time whose fields follow the year's digits from position `o` on. */
  function StampFrom(ds: bytes, year: int, o: nat): Stamp
    requires |ds| == o + 10
  {
    Stamp(Date(year, Num2(ds, o), Num2(ds, o + 2)), Num2(ds, o + 4), Num2(ds, o + 6), Num2(ds, o + 8))
  }

  function YearOf(ds: bytes): int
    requires |ds| == 12 || |ds| == 14
  {
    if |ds| == 14 then Num2(ds, 0) * 100 + Num2(ds, 2)
    else if Num2(ds, 0) < 50 then 2000 + Num2(ds, 0) else 1900 + Num2(ds, 0)
  }

  /** The digits are those of the time. */
  ghost predicate Digits(ds: bytes, t: Stamp) {
    && AllDigits(ds) && (|ds| == 12 || |ds| == 14) && t == StampFrom(ds, YearOf(ds), |ds| - 10)
    && 1 <= t.date.month <= 12 && 1 <= t.date.day <= 31 && t.hour <= 23 && t.minute <= 59 && t.second <= 60
  }

  lemma ParsedIsDigits(ds: bytes, t: Stamp)
    ensures ParseCertTime(ds + [ZULU]) == Some(t) <==> Digits(ds, t)
  {
    hide Num2, IsDigit;
    assert (ds + [ZULU])[..|ds|] == ds;
  }

  lemma FieldsInRange(ds: bytes, o: nat)
    requires AllDigits(ds) && |ds| == o + 10
    ensures 0 <= Num2(ds, o + 4) && 0 <= Num2(ds, o + 6) && 0 <= Num2(ds, o + 8)
  {
    PairIs(ds, o + 4); PairIs(ds, o + 6); PairIs(ds, o + 8);
    hide Num2;
  }

  lemma ShortIs(ds: bytes, t: Stamp)
    requires |ds| == 12
    ensures Digits(ds, t) <==> InClock(t) && 1950 <= t.date.year <= 2049 && ds == Two(t.date.year % 100) + Rest(t)
  {
    hide Two, Rest, Num2, IsDigit;
    if Digits(ds, t) {
      PairIs(ds, 0);
      FieldsInRange(ds, 2);
      RestOf(ds, 2, t);
      assert ds == ds[0..2] + ds[2..];
    }
    if InClock(t) && 1950 <= t.date.year <= 2049 && ds == Two(t.date.year % 100) + Rest(t) {
      TwoLength(t.date.year % 100);
      assert ds[0..2] == Two(t.date.year % 100) && ds[2..] == Rest(t);
      TwoAt(ds, 0, t.date.year % 100);
      RestAt(ds, 2, t);
      assert StampFrom(ds, YearOf(ds), 2) == t;
    }
  }

  lemma LongIs(ds: bytes, t: Stamp)
    requires |ds| == 14
    ensures Digits(ds, t) <==> InClock(t) && ds == Four(t.date.year) + Rest(t)
  {
    hide Two, Rest, Num2, IsDigit;
    if Digits(ds, t) {
      PairIs(ds, 0);
      PairIs(ds, 2);
      FieldsInRange(ds, 4);
      YearParts(Num2(ds, 0), Num2(ds, 2));
      RestOf(ds, 4, t);
      assert ds == ds[0..2] + ds[2..4] + ds[4..];
    }
    if InClock(t) && ds == Four(t.date.year) + Rest(t) {
      FourAt(ds, t);
      RestAt(ds, 4, t);
      assert StampFrom(ds, YearOf(ds), 4) == t;
    }
  }

  lemma FourAt(ds: bytes, t: Stamp)
    requires InClock(t) && ds == Four(t.date.year) + Rest(t)
    ensures |ds| >= 4 && ds[4..] == Rest(t) && Num2(ds, 0) * 100 + Num2(ds, 2) == t.date.year
    ensures forall k :: 0 <= k < 4 ==> IsDigit(ds[k])
  {
    var y := t.date.year;
    TwoLength(y / 100); TwoLength(y % 100);
    hide Two, Rest, Num2, IsDigit;
    assert ds[0..2] == Two(y / 100) && ds[2..4] == Two(y % 100);
    TwoAt(ds, 0, y / 100); TwoAt(ds, 2, y % 100);
  }

  lemma YearParts(a: int, b: int)
    requires 0 <= a < 100 && 0 <= b < 100
    ensures (a * 100 + b) / 100 == a && (a * 100 + b) % 100 == b && 0 <= a * 100 + b < 10000
  {
  }

  lemma Lengths(t: Stamp)
    requires InClock(t)
    ensures |Rest(t)| == 10 && |Four(t.date.year)| == 4 && |Two(t.date.year % 100)| == 2
  {
  }

  /** A text is read as a time exactly if it spells it: in particular the thirty-first of every month is taken, and a
      second 60. */
  lemma TimeIsExact(raw: bytes, t: Stamp)
    ensures ParseCertTime(raw) == Some(t) <==> Spells(raw, t)
  {
    if InClock(t) { Lengths(t); }
    hide Two, Four, Rest, Digits, InClock;
    if raw != [] && raw[|raw| - 1] == ZULU {
      var ds := raw[..|raw| - 1];
      assert raw == ds + [ZULU];
      ParsedIsDigits(ds, t);
      SameEnd(raw, ds, t);
      hide ParseCertTime;
      if |ds| == 12 { ShortIs(ds, t); }
      if |ds| == 14 { LongIs(ds, t); }
      if Digits(ds, t) { DigitsLength(ds, t); }
    }
  }

  lemma DigitsLength(ds: bytes, t: Stamp)
    requires Digits(ds, t)
    ensures |ds| == 12 || |ds| == 14
  {
  }

  lemma SameEnd(raw: bytes, ds: bytes, t: Stamp)
    requires raw == ds + [ZULU]
    ensures InClock(t) ==> (raw == Four(t.date.year) + Rest(t) + [ZULU] <==> ds == Four(t.date.year) + Rest(t))
    ensures InClock(t) ==> (raw == Two(t.date.year % 100) + Rest(t) + [ZULU] <==> ds == Two(t.date.year % 100) + Rest(t))
  {
    hide Two, Four, Rest;
    if InClock(t) {
      SnocSame(ds, Four(t.date.year) + Rest(t));
      SnocSame(ds, Two(t.date.year % 100) + Rest(t));
    }
  }

  lemma SnocSame(a: bytes, b: bytes)
    ensures a + [ZULU] == b + [ZULU] <==> a == b
  {
    if a + [ZULU] == b + [ZULU] {
      assert |a| == |b|;
      assert a == (a + [ZULU])[..|a|] == (b + [ZULU])[..|b|] == b;
    }
  }
}
