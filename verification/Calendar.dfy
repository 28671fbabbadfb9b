/** The two calendar computations, written independently of each other (crates/mat-controller/src/cert.rs,
    crates/mat-controller/src/attestation.rs), and the Gregorian calendar they both are about. */
module Calendar {
  import opened Wrappers

  datatype Date = Date(year: int, month: int, day: int)

  // ---------------------------------------------------------------- the Gregorian calendar

  predicate IsLeap(y: int) { y % 4 == 0 && (y % 100 != 0 || y % 400 == 0) }

  function DaysIn(y: int, m: int): int {
    if m == 2 then (if IsLeap(y) then 29 else 28)
    else if m == 4 || m == 6 || m == 9 || m == 11 then 30
    else 31
  }

  predicate ValidDate(x: Date) { 1 <= x.month <= 12 && 1 <= x.day <= DaysIn(x.year, x.month) }

  function NextDay(x: Date): Date {
    if x.day < DaysIn(x.year, x.month) then x.(day := x.day + 1)
    else if x.month < 12 then Date(x.year, x.month + 1, 1)
    else Date(x.year + 1, 1, 1)
  }

  // ---------------------------------------------------------------- the two computations

  const EPOCH_SHIFT := 719468
  const ERA_DAYS := 146097

  /** Rust's division, which rounds toward zero. */
  function Quot(a: int, b: int): int
    requires b > 0
  {
    if a >= 0 then a / b else -((-a) / b)
  }

  /** `civil_from_days`: days since 1970-01-01 to a date. */
  function CivilFromDays(days: int): Date {
    var z := days + EPOCH_SHIFT;
    var era := Quot(if z >= 0 then z else z - 146096, ERA_DAYS);
    var doe := z - era * ERA_DAYS;
    var yoe := Quot(doe - Quot(doe, 1460) + Quot(doe, 36524) - Quot(doe, 146096), 365);
    var y := yoe + era * 400;
    var doy := doe - (365 * yoe + Quot(yoe, 4) - Quot(yoe, 100));
    var mp := Quot(5 * doy + 2, 153);
    var d := doy - Quot(153 * mp + 2, 5) + 1;
    var m := if mp < 10 then mp + 3 else mp - 9;
    Date(if m <= 2 then y + 1 else y, m, d)
  }

  /** `days_from_civil`: a date to days since 1970-01-01. */
  function DaysFromCivil(year: int, month: int, day: int): int {
    var y := if month <= 2 then year - 1 else year;
    var era := Quot(if y >= 0 then y else y - 399, 400);
    var yoe := y - era * 400;
    var mp := (month + 9) % 12;
    var doy := Quot(153 * mp + 2, 5) + day - 1;
    var doe := yoe * 365 + Quot(yoe, 4) - Quot(yoe, 100) + doy;
    era * ERA_DAYS + doe - EPOCH_SHIFT
  }

  // ---------------------------------------------------------------- years of an era

  /** The days before year `y` of an era that starts in March. */
  function YearStart(y: int): int { 365 * y + y / 4 - y / 100 }

  function YearOfEra(doe: int): int { (doe - doe / 1460 + doe / 36524 - doe / 146096) / 365 }

  /** The last day of a March year, counted from 0. */
  function LastDay(y: int): int { if IsLeap(y + 1) then 365 else 364 }

  /** Century, four-year cycle, year and day of a day in an era. */
  ghost predicate Parts(c: int, q: int, t: int, u: int) {
    && 0 <= c <= 3 && 0 <= q <= 24 && 0 <= t <= 3
    && 0 <= u <= if t == 3 && (q < 24 || c == 3) then 365 else 364
  }

  lemma YearOfParts(c: int, q: int, t: int, u: int)
    requires Parts(c, q, t, u)
    ensures YearOfEra(36524 * c + 1461 * q + 365 * t + u) == 100 * c + 4 * q + t
    ensures YearStart(100 * c + 4 * q + t) == 36524 * c + 1461 * q + 365 * t
  {
    var doe := 36524 * c + 1461 * q + 365 * t + u;
    Corrections(c, q, t, u);
    var last := if doe == 146096 then 1 else 0;
    var e := if 24 * c + q + 365 * t + u >= 1460 then 1 else 0;
    DivideIs(doe - (25 * c + q + e) + (c + last) - last, 365, 100 * c + 4 * q + t);
    StartOfParts(c, q, t);
  }

  /** The three corrections for leap days. */
  lemma Corrections(c: int, q: int, t: int, u: int)
    requires Parts(c, q, t, u)
    ensures var doe := 36524 * c + 1461 * q + 365 * t + u;
            var last := if doe == 146096 then 1 else 0;
            && doe / 1460 == 25 * c + q + (if 24 * c + q + 365 * t + u >= 1460 then 1 else 0)
            && doe / 36524 == c + last && doe / 146096 == last
  {
    var doe := 36524 * c + 1461 * q + 365 * t + u;
    var last := if doe == 146096 then 1 else 0;
    DivideIs(doe, 1460, 25 * c + q + if 24 * c + q + 365 * t + u >= 1460 then 1 else 0);
    DivideIs(doe, 36524, c + last);
    DivideIs(doe, 146096, last);
  }

  lemma StartOfParts(c: int, q: int, t: int)
    requires Parts(c, q, t, 0)
    ensures YearStart(100 * c + 4 * q + t) == 36524 * c + 1461 * q + 365 * t
  {
    DivideIs(100 * c + 4 * q + t, 4, 25 * c + q);
    DivideIs(100 * c + 4 * q + t, 100, c);
  }

  /** Every day of an era has its parts. */
  lemma PartsOfDay(doe: int) returns (c: int, q: int, t: int, u: int)
    requires 0 <= doe < ERA_DAYS
    ensures Parts(c, q, t, u) && doe == 36524 * c + 1461 * q + 365 * t + u
  {
    c := if doe == 146096 then 3 else doe / 36524;
    var r := doe - 36524 * c;
    q := r / 1461;
    var s := r - 1461 * q;
    t := if s == 1460 then 3 else s / 365;
    u := s - 365 * t;
  }

  /** Every year of an era, and day of it, has its parts. */
  lemma PartsOfYear(y: int, doy: int) returns (c: int, q: int, t: int)
    requires 0 <= y < 400 && 0 <= doy <= LastDay(y)
    ensures Parts(c, q, t, doy) && y == 100 * c + 4 * q + t
  {
    c, q, t := y / 100, y % 100 / 4, y % 4;
    if t == 3 && q == 24 && c < 3 { NotLeap(y + 1, c + 1); }
    if t < 3 { NoFourth(y, t); }
  }

  lemma NotLeap(y: int, c: int)
    requires y == 100 * c && 1 <= c <= 3
    ensures !IsLeap(y)
  {
  }

  lemma NoFourth(y: int, t: int)
    requires t == y % 4 < 3
    ensures !IsLeap(y + 1)
  {
  }

  lemma LastDayOfParts(c: int, q: int, t: int)
    requires Parts(c, q, t, 0)
    ensures LastDay(100 * c + 4 * q + t) == if t == 3 && (q < 24 || c == 3) then 365 else 364
  {
    var y := 100 * c + 4 * q + t;
    if t < 3 {
      NoFourth(y, t);
    } else {
      var n := y + 1;
      assert n == 4 * (25 * c + q + 1);
      if q == 24 {
        assert n == 100 * (c + 1);
        if c < 3 { NotLeap(n, c + 1); } else { assert n == 400; }
      } else {
        DivideIs(n, 100, c);
      }
    }
  }

  /** A day of an era falls in the year computed for it. */
  lemma YearOfEraCorrect(doe: int)
    requires 0 <= doe < ERA_DAYS
    ensures var y := YearOfEra(doe); 0 <= y < 400 && 0 <= doe - YearStart(y) <= LastDay(y)
  {
    hide YearOfEra, YearStart, LastDay;
    var c, q, t, u := PartsOfDay(doe);
    YearOfParts(c, q, t, u);
    LastDayOfParts(c, q, t);
  }

  lemma YearOfEraUnique(y: int, doy: int)
    requires 0 <= y < 400 && 0 <= doy <= LastDay(y)
    ensures YearOfEra(YearStart(y) + doy) == y && 0 <= YearStart(y) + doy < ERA_DAYS
  {
    hide YearOfEra, YearStart, LastDay;
    var c, q, t := PartsOfYear(y, doy);
    YearOfParts(c, q, t, doy);
  }

  // ---------------------------------------------------------------- months of a year

  function MonthStart(mp: int): int { (153 * mp + 2) / 5 }

  /** The number of days of the `mp`th month from March on in year `y`. */
  function MonthDays(y: int, mp: int): int {
    DaysIn(if mp < 10 then y else y + 1, if mp < 10 then mp + 3 else mp - 9)
  }

  lemma MonthTable(y: int, mp: int)
    requires 0 <= mp <= 11
    ensures if mp == 11 then MonthStart(mp) + MonthDays(y, mp) == LastDay(y) + 1
            else MonthStart(mp) + MonthDays(y, mp) == MonthStart(mp + 1)
  {
    hide IsLeap;
  }

  /** A day of a year falls in the month computed for it. */
  lemma MonthOfDay(y: int, doy: int)
    requires 0 <= doy <= LastDay(y)
    ensures var mp := (5 * doy + 2) / 153;
            0 <= mp <= 11 && 1 <= doy - MonthStart(mp) + 1 <= MonthDays(y, mp)
  {
    var mp := (5 * doy + 2) / 153;
    assert MonthStart(mp) <= doy && (mp < 11 ==> doy < MonthStart(mp + 1));
    MonthTable(y, mp);
    hide MonthDays, IsLeap;
  }

  lemma MonthUnique(y: int, mp: int, d: int)
    requires 0 <= mp <= 11 && 1 <= d <= MonthDays(y, mp)
    ensures var doy := MonthStart(mp) + d - 1;
            (5 * doy + 2) / 153 == mp && 0 <= doy <= LastDay(y)
  {
    MonthTable(y, mp);
    hide MonthDays, IsLeap;
    MonthStarts(mp);
  }

  lemma MonthStarts(mp: int)
    requires 0 <= mp <= 11
    ensures 5 * MonthStart(mp) + 2 >= 153 * mp && MonthStart(mp) >= 0
    ensures mp < 11 ==> 5 * (MonthStart(mp + 1) - 1) + 2 < 153 * (mp + 1)
    ensures mp == 11 ==> MonthStart(mp) == 337
  {
  }

  // ---------------------------------------------------------------- the computations on eras

  /** A date as era, year of the era that starts in March, and day of that year. */
  ghost predicate Placed(x: Date, era: int, yoe: int, doy: int) {
    var y := if x.month <= 2 then x.year - 1 else x.year;
    var mp := if x.month > 2 then x.month - 3 else x.month + 9;
    y == yoe + 400 * era && 0 <= yoe < 400 && doy == MonthStart(mp) + x.day - 1
  }

  lemma DaysOfPlaced(x: Date, era: int, yoe: int, doy: int)
    requires 1 <= x.month <= 12 && Placed(x, era, yoe, doy)
    ensures DaysFromCivil(x.year, x.month, x.day) == era * ERA_DAYS + YearStart(yoe) + doy - EPOCH_SHIFT
  {
    hide MonthStart;
    EraOfYear(era, yoe);
    MonthNumber(x.month);
  }

  lemma EraOfYear(era: int, yoe: int)
    requires 0 <= yoe < 400
    ensures var y := yoe + 400 * era; Quot(if y >= 0 then y else y - 399, 400) == era
  {
  }

  lemma MonthNumber(m: int)
    requires 1 <= m <= 12
    ensures (m + 9) % 12 == if m > 2 then m - 3 else m + 9
    ensures Quot(153 * ((m + 9) % 12) + 2, 5) == MonthStart(if m > 2 then m - 3 else m + 9)
  {
  }

  lemma CivilIsPlaced(era: int, yoe: int, doy: int)
    requires 0 <= yoe < 400 && 0 <= doy <= LastDay(yoe)
    ensures var x := CivilFromDays(era * ERA_DAYS + YearStart(yoe) + doy - EPOCH_SHIFT);
            && ValidDate(x) && Placed(x, era, yoe, doy)
            && x.year == yoe + 400 * era + if (5 * doy + 2) / 153 < 10 then 0 else 1
  {
    hide YearOfEra, YearStart, LastDay, MonthStart, DaysIn, CivilFromDays;
    YearOfEraUnique(yoe, doy);
    var doe := YearStart(yoe) + doy;
    CivilComputes(era, doe);
    MonthOfDay(yoe, doy);
    LeapInEra(yoe, era, (5 * doy + 2) / 153);
  }

  /** The computed date, in terms of era and day of the era. */
  lemma CivilComputes(era: int, doe: int)
    requires 0 <= doe < ERA_DAYS
    ensures var yoe := YearOfEra(doe);
            var doy := doe - YearStart(yoe);
            var mp := (5 * doy + 2) / 153;
            && yoe >= 0 && doy >= 0
            && CivilFromDays(era * ERA_DAYS + doe - EPOCH_SHIFT)
               == Date(yoe + 400 * era + if mp < 10 then 0 else 1, if mp < 10 then mp + 3 else mp - 9,
                       doy - MonthStart(mp) + 1)
  {
    YearOfEraCorrect(doe);
    EraOf(era, doe);
    hide LastDay;
    MonthOfDay(YearOfEra(doe), doe - YearStart(YearOfEra(doe)));
  }

  lemma EraOf(era: int, doe: int)
    requires 0 <= doe < ERA_DAYS
    ensures var z := era * ERA_DAYS + doe;
            Quot(if z >= 0 then z else z - 146096, ERA_DAYS) == era
  {
  }

  lemma LeapInEra(yoe: int, era: int, mp: int)
    ensures MonthDays(yoe + 400 * era, mp) == MonthDays(yoe, mp)
    ensures LastDay(yoe + 400 * era) == LastDay(yoe)
  {
    LeapRepeats(yoe, era);
    LeapRepeats(yoe + 1, era);
    hide IsLeap;
  }

  lemma Same4(y: int, k: int)
    ensures (y + 4 * k) % 4 == y % 4
  {
  }

  lemma Same100(y: int, k: int)
    ensures (y + 100 * k) % 100 == y % 100
  {
  }

  lemma Same400(y: int, k: int)
    ensures (y + 400 * k) % 400 == y % 400
  {
  }

  lemma LeapRepeats(y: int, era: int)
    ensures IsLeap(y + 400 * era) <==> IsLeap(y)
  {
    Same4(y, 100 * era);
    Same100(y, 4 * era);
    Same400(y, era);
  }

  // ---------------------------------------------------------------- the laws

  /** A day as era, year and day of the year. */
  lemma DaySplit(z: int) returns (era: int, yoe: int, doy: int)
    ensures 0 <= yoe < 400 && 0 <= doy <= LastDay(yoe)
    ensures z == era * ERA_DAYS + YearStart(yoe) + doy - EPOCH_SHIFT
  {
    hide YearOfEra, YearStart, LastDay;
    era := (z + EPOCH_SHIFT) / ERA_DAYS;
    var doe := (z + EPOCH_SHIFT) % ERA_DAYS;
    YearOfEraCorrect(doe);
    yoe := YearOfEra(doe);
    doy := doe - YearStart(yoe);
  }

  /** For every day, the date computed is a date of the calendar, and computing its day gives the day back. */
  lemma DaysOfCivil(z: int)
    ensures var x := CivilFromDays(z);
            ValidDate(x) && DaysFromCivil(x.year, x.month, x.day) == z
  {
    hide CivilFromDays, DaysFromCivil, YearStart, LastDay, Placed, DaysIn;
    var era, yoe, doy := DaySplit(z);
    CivilIsPlaced(era, yoe, doy);
    DaysOfPlaced(CivilFromDays(z), era, yoe, doy);
  }

  /** A date of the calendar as era, year and day of the year. */
  lemma DateSplit(x: Date) returns (era: int, yoe: int, doy: int)
    requires ValidDate(x)
    ensures Placed(x, era, yoe, doy) && 0 <= doy <= LastDay(yoe)
    ensures (5 * doy + 2) / 153 == if x.month > 2 then x.month - 3 else x.month + 9
  {
    hide LastDay, MonthStart, IsLeap;
    var y := if x.month <= 2 then x.year - 1 else x.year;
    var mp := if x.month > 2 then x.month - 3 else x.month + 9;
    era, yoe := y / 400, y % 400;
    doy := MonthStart(mp) + x.day - 1;
    assert MonthDays(y, mp) == DaysIn(x.year, x.month);
    LeapInEra(yoe, era, mp);
    MonthUnique(yoe, mp, x.day);
  }

  /** For every date of the calendar, computing its day and the date of that day gives the date back. */
  lemma CivilOfDays(x: Date)
    requires ValidDate(x)
    ensures CivilFromDays(DaysFromCivil(x.year, x.month, x.day)) == x
  {
    hide CivilFromDays, DaysFromCivil, YearStart, LastDay, DaysIn, MonthStart;
    var era, yoe, doy := DateSplit(x);
    DaysOfPlaced(x, era, yoe, doy);
    CivilIsPlaced(era, yoe, doy);
    SamePlace(x, CivilFromDays(DaysFromCivil(x.year, x.month, x.day)), era, yoe, doy);
  }

  lemma SamePlace(x: Date, x': Date, era: int, yoe: int, doy: int)
    requires 1 <= x.month <= 12 && 1 <= x'.month <= 12 && Placed(x, era, yoe, doy) && Placed(x', era, yoe, doy)
    requires x'.year == yoe + 400 * era + if (5 * doy + 2) / 153 < 10 then 0 else 1
    requires (5 * doy + 2) / 153 == if x.month > 2 then x.month - 3 else x.month + 9
    requires ValidDate(x) && ValidDate(x')
    ensures x == x'
  {
    hide LastDay;
    var era', yoe', doy' := DateSplit(x');
    hide MonthStart, DaysIn;
    assert doy' == doy;
  }

  /** The day after a date is the next day. */
  lemma DaysOfNext(x: Date)
    requires ValidDate(x)
    ensures ValidDate(NextDay(x))
    ensures var n := NextDay(x);
            DaysFromCivil(n.year, n.month, n.day) == DaysFromCivil(x.year, x.month, x.day) + 1
  {
    hide DaysFromCivil, LastDay, IsLeap, MonthStart, YearStart;
    var era, yoe, doy := DateSplit(x);
    DaysOfPlaced(x, era, yoe, doy);
    var n := NextDay(x);
    NextIsPlaced(x, era, yoe, doy);
    if x.month == 2 && n.month == 3 {
      YearLength(yoe);
      DaysOfPlaced(n, if yoe == 399 then era + 1 else era, if yoe == 399 then 0 else yoe + 1, 0);
    } else {
      DaysOfPlaced(n, era, yoe, doy + 1);
    }
  }

  lemma NextIsPlaced(x: Date, era: int, yoe: int, doy: int)
    requires ValidDate(x) && Placed(x, era, yoe, doy)
    ensures var n := NextDay(x);
            && 1 <= n.month <= 12 && 1 <= n.day
            && if x.month == 2 && n.month == 3 then
                 doy == LastDay(yoe)
                 && Placed(n, if yoe == 399 then era + 1 else era, if yoe == 399 then 0 else yoe + 1, 0)
               else Placed(n, era, yoe, doy + 1)
  {
    var mp := if x.month > 2 then x.month - 3 else x.month + 9;
    LeapInEra(yoe, era, mp);
    MonthTable(yoe, mp);
    assert MonthStart(0) == 0;
    hide LastDay, IsLeap, MonthStart;
  }

  lemma NextQuotient(n: int)
    requires n >= 0
    ensures (n + 1) / 4 == n / 4 + if (n + 1) % 4 == 0 then 1 else 0
    ensures (n + 1) / 100 == n / 100 + if (n + 1) % 100 == 0 then 1 else 0
  {
  }

  lemma YearLength(yoe: int)
    requires 0 <= yoe < 400
    ensures YearStart(yoe) + LastDay(yoe) + 1 == if yoe == 399 then ERA_DAYS else YearStart(yoe + 1)
    ensures YearStart(0) == 0
  {
    NextQuotient(yoe);
    if yoe < 399 && (yoe + 1) % 100 == 0 { NotLeap(yoe + 1, (yoe + 1) / 100); }
  }

  lemma DayZero()
    ensures CivilFromDays(0) == Date(1970, 1, 1)
  {
  }

  /** The computed dates are the calendar: day 0 is 1970-01-01, and each day is followed by the next. */
  lemma CivilIsTheCalendar(z: int)
    ensures CivilFromDays(0) == Date(1970, 1, 1)
    ensures CivilFromDays(z + 1) == NextDay(CivilFromDays(z))
  {
    hide CivilFromDays, DaysFromCivil, NextDay, DaysIn;
    DayZero();
    var x := CivilFromDays(z);
    DaysOfCivil(z);
    DaysOfNext(x);
    CivilOfDays(NextDay(x));
  }
}
