/** Day numbers and dates. The source has this arithmetic three times over
    (crates/backtrackd/src/pipeline.rs, xtask/src/main.rs and
    crates/backtrack-cli/src/render.rs), and its inverse once
    (crates/backtrack-core/src/index/item.rs). All four are proved against the
    Gregorian calendar stated by its own rules. */
module Calendar {

  // ---- The Gregorian calendar ----

  datatype Date = Date(year: int, month: int, day: int)

  predicate Leap(year: int) {
    year % 4 == 0 && (year % 100 != 0 || year % 400 == 0)
  }

  function DaysIn(year: int, month: int): int {
    if month == 2 then (if Leap(year) then 29 else 28)
    else if month in {4, 6, 9, 11} then 30
    else 31
  }

  predicate Valid(date: Date) {
    1 <= date.month <= 12 && 1 <= date.day <= DaysIn(date.year, date.month)
  }

  function NextDay(date: Date): Date {
    if date.day < DaysIn(date.year, date.month) then Date(date.year, date.month, date.day + 1)
    else if date.month < 12 then Date(date.year, date.month + 1, 1)
    else Date(date.year + 1, 1, 1)
  }

  predicate Before(a: Date, b: Date) {
    || a.year < b.year
    || (a.year == b.year && a.month < b.month)
    || (a.year == b.year && a.month == b.month && a.day < b.day)
  }

  // ---- The source's arithmetic ----

  /** The source language's division, which rounds towards zero. */
  function Truncated(a: int, b: int): int
    requires b > 0
  {
    if a >= 0 then a / b else -(-a / b)
  }

  function YearOfEra(doe: int): int {
    (doe - doe / 1460 + doe / 36524 - doe / 146096) / 365
  }

  function DayOfYear(doe: int, yoe: int): int {
    doe - (365 * yoe + yoe / 4 - yoe / 100)
  }

  function ShiftedMonth(doy: int): int {
    (5 * doy + 2) / 153
  }

  /** The lines the three copies share, once each has its era. */
  function FromEra(era: int, doe: int): Date {
    var yoe := YearOfEra(doe);
    var y := yoe + era * 400;
    var doy := DayOfYear(doe, yoe);
    var mp := ShiftedMonth(doy);
    var d := doy - (153 * mp + 2) / 5 + 1;
    var m := if mp < 10 then mp + 3 else mp - 9;
    Date(if m <= 2 then y + 1 else y, m, d)
  }

  /** The pipeline's copy, which finds the era by truncating division. */
  function CivilFromDays(days: int): Date {
    var z := days + 719468;
    var era := Truncated(if z >= 0 then z else z - 146096, 146097);
    FromEra(era, z - era * 146097)
  }

  /** The fixture generator's copy, by Euclidean division. */
  function CivilFromDaysEuclid(days: int): Date {
    var z := days + 719468;
    FromEra(z / 146097, z % 146097)
  }

  datatype Clock = Clock(hour: int, minute: int, second: int)

  /** The time of day, of seconds since midnight. */
  function ClockOf(seconds: int): Clock {
    Clock(seconds / 3600, seconds % 3600 / 60, seconds % 60)
  }

  predicate SaneClock(clock: Clock) {
    0 <= clock.hour < 24 && 0 <= clock.minute < 60 && 0 <= clock.second < 60
  }

  lemma ClockParts(seconds: nat)
    requires seconds < 86400
    ensures SaneClock(ClockOf(seconds))
    ensures var c := ClockOf(seconds); seconds == c.hour * 3600 + c.minute * 60 + c.second
  {
  }

  /** The command line's copy, which takes seconds and gives the time too. */
  function CivilFromEpoch(secs: int): (Date, Clock) {
    var z := secs / 86400 + 719468;
    (FromEra(z / 146097, z % 146097), ClockOf(secs % 86400))
  }

  /** The index's inverse, by truncating division. */
  function DaysFromCivil(date: Date): int {
    var y := if date.month <= 2 then date.year - 1 else date.year;
    var era := Truncated(if y >= 0 then y else y - 399, 400);
    var yoe := y - era * 400;
    var doy := (153 * (if date.month > 2 then date.month - 3 else date.month + 9) + 2) / 5 + date.day - 1;
    var doe := yoe * 365 + yoe / 4 - yoe / 100 + doy;
    era * 146097 + doe - 719468
  }

  // ---- Eras ----

  /** Both ways of finding an era round down. */
  lemma EraRoundsDown(z: int, size: int)
    requires size > 0
    ensures Truncated(if z >= 0 then z else z - (size - 1), size) == z / size
  {
    if z < 0 {
      var q := z / size;
      var r := z % size;
      assert z == q * size + r;
      assert -(z - (size - 1)) == -q * size + (size - 1 - r);
      DivUnique(-(z - (size - 1)), size, -q, size - 1 - r);
    }
  }

  lemma DivUnique(n: int, d: int, q: int, r: int)
    requires d > 0 && n == q * d + r && 0 <= r < d
    ensures n / d == q && n % d == r
  {
    var k := n / d - q;
    assert n == n / d * d + n % d;
    assert k * d == r - n % d;
    assert k > 0 ==> k * d >= d;
    assert k < 0 ==> k * d <= -d;
  }

  /** The three copies agree on every day, and the command line's on every
      second of it. */
  lemma CopiesAgree(days: int, seconds: int)
    requires 0 <= seconds < 86400
    ensures CivilFromDays(days) == CivilFromDaysEuclid(days)
    ensures CivilFromEpoch(days * 86400 + seconds) == (CivilFromDays(days), ClockOf(seconds))
  {
    hide *;
    EuclidAgrees(days);
    EpochAgrees(days, seconds);
  }

  lemma EpochAgrees(days: int, seconds: int)
    requires 0 <= seconds < 86400
    ensures CivilFromEpoch(days * 86400 + seconds) == (CivilFromDaysEuclid(days), ClockOf(seconds))
  {
    hide FromEra, ClockOf;
    DivUnique(days * 86400 + seconds, 86400, days, seconds);
  }

  lemma EuclidAgrees(days: int)
    ensures CivilFromDays(days) == CivilFromDaysEuclid(days)
  {
    hide FromEra;
    var z := days + 719468;
    EraRoundsDown(z, 146097);
    DivUnique(z, 146097, z / 146097, z % 146097);
  }

  // ---- Years of an era, counted from March ----

  /** Whether year `yoe` of an era, counted from March, ends in a 29 February. */
  predicate LongYear(yoe: int) {
    yoe % 4 == 3 && (yoe % 100 != 99 || yoe == 399)
  }

  function YearStart(yoe: int): int {
    365 * yoe + yoe / 4 - yoe / 100
  }

  /** Century, leap cycle and year within it. */
  lemma YearParts(yoe: int) returns (c: int, q: int, k: int)
    requires 0 <= yoe < 400
    ensures 0 <= c < 4 && 0 <= q < 25 && 0 <= k < 4 && yoe == 100 * c + 4 * q + k
    ensures YearStart(yoe) == 36524 * c + 1461 * q + 365 * k
    ensures LongYear(yoe) <==> k == 3 && (q != 24 || c == 3)
  {
    c, q, k := yoe / 100, yoe % 100 / 4, yoe % 4;
    YearOfParts(c, q, k);
  }

  lemma YearOfParts(c: int, q: int, k: int)
    requires 0 <= c < 4 && 0 <= q < 25 && 0 <= k < 4
    ensures var yoe := 100 * c + 4 * q + k;
            YearStart(yoe) == 36524 * c + 1461 * q + 365 * k && (LongYear(yoe) <==> k == 3 && (q != 24 || c == 3))
  {
    var yoe := 100 * c + 4 * q + k;
    DivUnique(yoe, 100, c, 4 * q + k);
    DivUnique(yoe, 4, 25 * c + q, k);
  }

  /** The formula finds the year a day of an era is in. */
  lemma FindsYear(yoe: int, doy: int)
    requires 0 <= yoe < 400 && 0 <= doy <= (if LongYear(yoe) then 365 else 364)
    ensures 0 <= YearStart(yoe) + doy < 146097
    ensures YearOfEra(YearStart(yoe) + doy) == yoe
  {
    var c, q, k := YearParts(yoe);
    var doe := YearStart(yoe) + doy;
    var s := 365 * k + doy;
    assert doe == 36524 * c + 1461 * q + s;
    var last := doe == 146096;
    DivUnique(doe, 146096, if last then 1 else 0, if last then 0 else doe);
    if last {
      DivUnique(doe, 36524, 4, 0);
    } else {
      DivUnique(doe, 36524, c, 1461 * q + s);
    }
    var over := 24 * c + q + s;
    assert doe == 1460 * (25 * c + q) + over;
    DivUnique(doe, 1460, 25 * c + q + (if over >= 1460 then 1 else 0), if over >= 1460 then over - 1460 else over);
    var u := doy - (if over >= 1460 then 1 else 0) + (if last then 4 - c - 1 else 0);
    assert doe - doe / 1460 + doe / 36524 - doe / 146096 == 365 * yoe + u;
    DivUnique(365 * yoe + u, 365, yoe, u);
  }

  /** Every day of an era is in one of its years. */
  lemma SplitsIntoYears(doe: int) returns (yoe: int, doy: int)
    requires 0 <= doe < 146097
    ensures 0 <= yoe < 400 && 0 <= doy <= (if LongYear(yoe) then 365 else 364)
    ensures doe == YearStart(yoe) + doy
  {
    hide YearStart, LongYear;
    var c := if doe == 146096 then 3 else doe / 36524;
    var r := doe - 36524 * c;
    var q := if r == 36524 then 24 else r / 1461;
    var s := r - 1461 * q;
    var k := if s >= 1460 then 3 else s / 365;
    yoe, doy := 100 * c + 4 * q + k, s - 365 * k;
    YearOfParts(c, q, k);
  }

  // ---- Months, counted from March ----

  function MonthStart(mp: int): int {
    (153 * mp + 2) / 5
  }

  /** Days in the month `mp` months after March, in a year as long as can be. */
  function MonthLength(mp: int): int {
    if mp == 11 then 29 else if mp in {1, 3, 6, 8} then 30 else 31
  }

  lemma MonthTable(mp: int)
    requires 0 <= mp < 12
    ensures MonthStart(mp) == [0, 31, 61, 92, 122, 153, 184, 214, 245, 275, 306, 337][mp]
    ensures MonthStart(mp) + MonthLength(mp) == (if mp == 11 then 366 else MonthStart(mp + 1))
  {
  }

  lemma FindsMonth(mp: int, day: int)
    requires 0 <= mp < 12 && 1 <= day <= MonthLength(mp)
    ensures 0 <= MonthStart(mp) + day - 1 <= 365
    ensures ShiftedMonth(MonthStart(mp) + day - 1) == mp
  {
    MonthTable(mp);
  }

  lemma SplitsIntoMonths(doy: int) returns (mp: int, day: int)
    requires 0 <= doy <= 365
    ensures 0 <= mp < 12 && 1 <= day <= MonthLength(mp)
    ensures doy == MonthStart(mp) + day - 1
  {
    mp := 0;
    while mp < 11 && MonthStart(mp + 1) <= doy
      invariant 0 <= mp < 12 && MonthStart(mp) <= doy
    {
      mp := mp + 1;
    }
    MonthTable(mp);
    day := doy - MonthStart(mp) + 1;
  }

  // ---- Dates and day numbers ----

  /** A date's place: its era, its year of it and its month, from March. */
  lemma Place(date: Date) returns (era: int, yoe: int, mp: int)
    requires Valid(date)
    ensures 0 <= yoe < 400 && 0 <= mp < 12 && date.month == (if mp < 10 then mp + 3 else mp - 9)
    ensures date.year == 400 * era + yoe + (if date.month <= 2 then 1 else 0)
    ensures 1 <= date.day <= MonthLength(mp) && (mp == 11 && date.day == 29 ==> LongYear(yoe))
    ensures DaysFromCivil(date) == era * 146097 + YearStart(yoe) + MonthStart(mp) + date.day - 1 - 719468
  {
    var y := if date.month <= 2 then date.year - 1 else date.year;
    era, yoe := y / 400, y % 400;
    mp := if date.month > 2 then date.month - 3 else date.month + 9;
    EraRoundsDown(y, 400);
    if mp == 11 && date.day == 29 {
      assert date.year == 400 * era + yoe + 1;
      LeapIsLong(era, yoe);
    }
  }

  lemma LeapIsLong(era: int, yoe: int)
    requires 0 <= yoe < 400
    ensures Leap(400 * era + yoe + 1) <==> LongYear(yoe)
  {
    var year := 400 * era + yoe + 1;
    var c, q, k := YearParts(yoe);
    if k == 3 {
      DivUnique(year, 4, 100 * era + 25 * c + q + 1, 0);
      if q == 24 {
        DivUnique(year, 100, 4 * era + c + 1, 0);
        DivUnique(year, 400, if c == 3 then era + 1 else era, if c == 3 then 0 else 100 * c + 100);
      } else {
        DivUnique(year, 100, 4 * era + c, 4 * q + 4);
      }
    } else {
      DivUnique(year, 4, 100 * era + 25 * c + q, k + 1);
    }
  }

  /** What the shared lines make of a place. */
  lemma FromPlace(era: int, yoe: int, mp: int, day: int)
    requires 0 <= yoe < 400 && 0 <= mp < 12 && 1 <= day <= MonthLength(mp)
    requires mp == 11 && day == 29 ==> LongYear(yoe)
    ensures 0 <= YearStart(yoe) + MonthStart(mp) + day - 1 < 146097
    ensures FromEra(era, YearStart(yoe) + MonthStart(mp) + day - 1) ==
            Date(400 * era + yoe + (if mp < 10 then 0 else 1), if mp < 10 then mp + 3 else mp - 9, day)
  {
    MonthTable(mp);
    FindsMonth(mp, day);
    FindsYear(yoe, MonthStart(mp) + day - 1);
  }

  lemma EraOf(era: int, doe: int)
    requires 0 <= doe < 146097
    ensures CivilFromDays(era * 146097 + doe - 719468) == FromEra(era, doe)
  {
    hide FromEra;
    EraRoundsDown(era * 146097 + doe, 146097);
    DivUnique(era * 146097 + doe, 146097, era, doe);
  }

  /** Reading a valid date's day number back gives the date. */
  lemma DateRoundTrip(date: Date)
    requires Valid(date)
    ensures CivilFromDays(DaysFromCivil(date)) == date
  {
    hide *;
    var era, yoe, mp := Place(date);
    FromPlace(era, yoe, mp, date.day);
    EraOf(era, YearStart(yoe) + MonthStart(mp) + date.day - 1);
  }

  lemma PlaceOf(days: int) returns (era: int, yoe: int, mp: int, day: int)
    ensures 0 <= yoe < 400 && 0 <= mp < 12 && 1 <= day <= MonthLength(mp)
    ensures mp == 11 && day == 29 ==> LongYear(yoe)
    ensures days == era * 146097 + YearStart(yoe) + MonthStart(mp) + day - 1 - 719468
  {
    era := (days + 719468) / 146097;
    var doy;
    yoe, doy := SplitsIntoYears((days + 719468) % 146097);
    mp, day := SplitsIntoMonths(doy);
    MonthTable(mp);
  }

  /** Every day number has a valid date, which gives the number back. */
  lemma DayRoundTrip(days: int)
    ensures Valid(CivilFromDays(days)) && DaysFromCivil(CivilFromDays(days)) == days
  {
    hide *;
    var era, yoe, mp, day := PlaceOf(days);
    PlaceIsDate(days, era, yoe, mp, day);
    DateIsPlace(era, yoe, mp, day);
  }

  /** The date at a place of the era's calendar. */
  function DateAt(era: int, yoe: int, mp: int, day: int): Date {
    Date(400 * era + yoe + (if mp < 10 then 0 else 1), if mp < 10 then mp + 3 else mp - 9, day)
  }

  lemma PlaceIsDate(days: int, era: int, yoe: int, mp: int, day: int)
    requires 0 <= yoe < 400 && 0 <= mp < 12 && 1 <= day <= MonthLength(mp)
    requires mp == 11 && day == 29 ==> LongYear(yoe)
    requires days == era * 146097 + YearStart(yoe) + MonthStart(mp) + day - 1 - 719468
    ensures CivilFromDays(days) == DateAt(era, yoe, mp, day)
  {
    hide FromEra, CivilFromDays, YearStart, MonthStart, MonthLength, LongYear;
    FromPlace(era, yoe, mp, day);
    EraOf(era, YearStart(yoe) + MonthStart(mp) + day - 1);
  }

  lemma DateIsPlace(era: int, yoe: int, mp: int, day: int)
    requires 0 <= yoe < 400 && 0 <= mp < 12 && 1 <= day <= MonthLength(mp)
    requires mp == 11 && day == 29 ==> LongYear(yoe)
    ensures Valid(DateAt(era, yoe, mp, day))
    ensures DaysFromCivil(DateAt(era, yoe, mp, day)) ==
            era * 146097 + YearStart(yoe) + MonthStart(mp) + day - 1 - 719468
  {
    var date := DateAt(era, yoe, mp, day);
    LeapIsLong(era, yoe);
    var era', yoe', mp' := Place(date);
    SameYear(era, yoe, era', yoe');
  }

  /** The day after a date has the next number. */
  lemma NextDayCounts(date: Date)
    requires Valid(date)
    ensures Valid(NextDay(date)) && DaysFromCivil(NextDay(date)) == DaysFromCivil(date) + 1
  {
    hide YearStart, MonthStart, LongYear, DaysFromCivil;
    var next := NextDay(date);
    var era, yoe, mp := Place(date);
    var era', yoe', mp' := Place(next);
    MonthTable(mp);
    MonthTable(mp');
    if date.month == 2 {
      LeapIsLong(era, yoe);
    }
    if mp' == mp || mp' == mp + 1 {
      SameYear(era, yoe, era', yoe');
    } else {
      NextYear(era, yoe, era', yoe');
    }
  }

  lemma SameYear(era: int, yoe: int, era': int, yoe': int)
    requires 0 <= yoe < 400 && 0 <= yoe' < 400 && 400 * era + yoe == 400 * era' + yoe'
    ensures era == era' && yoe == yoe'
  {
  }

  lemma NextYear(era: int, yoe: int, era': int, yoe': int)
    requires 0 <= yoe < 400 && 0 <= yoe' < 400 && 400 * era + yoe + 1 == 400 * era' + yoe'
    ensures era' * 146097 + YearStart(yoe') ==
            era * 146097 + YearStart(yoe) + (if LongYear(yoe) then 366 else 365)
  {
    var c, q, k := YearParts(yoe);
    var c', q', k' := YearParts(yoe');
    if yoe == 399 {
      assert era' == era + 1 && yoe' == 0;
    } else {
      assert era' == era && yoe' == yoe + 1;
    }
  }

  lemma EpochDay()
    ensures CivilFromDays(0) == Date(1970, 1, 1)
  {
  }

  /** Day 0 is the first of January 1970, and each day's date is the Gregorian
      successor of the day's before it: on every integer. */
  lemma DatesFollowTheCalendar(days: int)
    ensures CivilFromDays(0) == Date(1970, 1, 1)
    ensures Valid(CivilFromDays(days))
    ensures CivilFromDays(days + 1) == NextDay(CivilFromDays(days))
  {
    hide *;
    EpochDay();
    DayRoundTrip(days);
    var date := CivilFromDays(days);
    NextDayCounts(date);
    DateRoundTrip(NextDay(date));
  }

  lemma Later(date: Date)
    ensures Before(date, NextDay(date))
  {
  }

  lemma InOrder(a: Date, b: Date, c: Date)
    requires Before(a, b) && Before(b, c)
    ensures Before(a, c)
  {
  }

  lemma NotBoth(a: Date, b: Date)
    ensures !(Before(a, b) && Before(b, a))
  {
  }

  /** Later days have later dates. */
  lemma {:induction false} DatesAreOrdered(a: int, b: int)
    requires a < b
    ensures Before(CivilFromDays(a), CivilFromDays(b)) && !Before(CivilFromDays(b), CivilFromDays(a))
    decreases b - a
  {
    hide *;
    DatesFollowTheCalendar(b - 1);
    Later(CivilFromDays(b - 1));
    if a < b - 1 {
      DatesAreOrdered(a, b - 1);
      InOrder(CivilFromDays(a), CivilFromDays(b - 1), CivilFromDays(b));
    }
    NotBoth(CivilFromDays(a), CivilFromDays(b));
  }
}
