/** The names of archives: an instant as text, and the search for a name that
    is not taken (crates/backtrackd/src/pipeline.rs). */
module ArchiveNames {
  import opened Text
  import opened Calendar

  function DateText(date: Date): string {
    Pad(date.year, 4) + (Pad(date.month, 2) + Pad(date.day, 2))
  }

  function ClockText(clock: Clock): string {
    Pad(clock.hour, 2) + Pad(clock.minute, 2) + Pad(clock.second, 2)
  }

  /** Epoch seconds in ISO 8601's basic format, `YYYYMMDDThhmmssZ`. */
  function Iso8601Basic(secs: int): string {
    DateText(CivilFromDays(secs / 86400)) + ("T" + (ClockText(ClockOf(secs % 86400)) + "Z"))
  }

  // ---- Different instants have different names ----

  /** Two digits, for everything but the year. */
  lemma TwoDigits(n: nat)
    requires n < 100
    ensures |Pad(n, 2)| == 2 && AllDigits(Pad(n, 2)) && Value(Pad(n, 2)) == n
  {
    Pow10Grows(2);
    PadReads(n, 2);
  }

  lemma ClockTextReads(clock: Clock, other: Clock)
    requires SaneClock(clock) && SaneClock(other)
    ensures |ClockText(clock)| == 6
    ensures ClockText(clock) == ClockText(other) ==> clock == other
  {
    TwoDigits(clock.hour);
    TwoDigits(clock.minute);
    TwoDigits(clock.second);
    TwoDigits(other.hour);
    TwoDigits(other.minute);
    TwoDigits(other.second);
    var a, b := ClockText(clock), ClockText(other);
    assert a[0..2] == Pad(clock.hour, 2) && a[2..4] == Pad(clock.minute, 2) && a[4..6] == Pad(clock.second, 2);
    assert b[0..2] == Pad(other.hour, 2) && b[2..4] == Pad(other.minute, 2) && b[4..6] == Pad(other.second, 2);
  }

  lemma DateTextReads(date: Date, other: Date)
    requires Valid(date) && Valid(other) && date.year >= 0 && other.year >= 0
    ensures DateText(date) == DateText(other) ==> date == other
  {
    TwoDigits(date.month);
    TwoDigits(date.day);
    TwoDigits(other.month);
    TwoDigits(other.day);
    PadReads(date.year, 4);
    PadReads(other.year, 4);
    if DateText(date) == DateText(other) {
      Cut(Pad(date.year, 4), Pad(date.month, 2), Pad(date.day, 2));
      Cut(Pad(other.year, 4), Pad(other.month, 2), Pad(other.day, 2));
    }
  }

  /** Where the two fields after the year are in a date's text. */
  lemma Cut(year: string, month: string, day: string)
    requires |month| == 2 && |day| == 2
    ensures var text := year + (month + day); var n := |text| - 4;
            n >= 0 && text[..n] == year && text[n..n + 2] == month && text[n + 2..] == day
  {
  }

  /** The date and time of a second, from the epoch on. */
  lemma Parts(secs: nat) returns (date: Date, clock: Clock)
    ensures date == CivilFromDays(secs / 86400) && clock == ClockOf(secs % 86400)
    ensures Valid(date) && date.year >= 1970 && SaneClock(clock)
    ensures secs == DaysFromCivil(date) * 86400 + clock.hour * 3600 + clock.minute * 60 + clock.second
    ensures Iso8601Basic(secs) == DateText(date) + ("T" + (ClockText(clock) + "Z"))
  {
    date, clock := CivilFromDays(secs / 86400), ClockOf(secs % 86400);
    hide CivilFromDays;
    hide DaysFromCivil;
    DayRoundTrip(secs / 86400);
    FromTheEpoch(secs / 86400);
    ClockParts(secs % 86400);
  }

  lemma FromTheEpoch(days: nat)
    ensures CivilFromDays(days).year >= 1970
  {
    hide CivilFromDays;
    EpochDay();
    if days > 0 {
      DatesAreOrdered(0, days);
    }
  }

  lemma NamesDiffer(a: nat, b: nat)
    ensures a != b ==> Iso8601Basic(a) != Iso8601Basic(b)
  {
    hide Iso8601Basic;
    hide CivilFromDays;
    hide DaysFromCivil;
    if Iso8601Basic(a) == Iso8601Basic(b) {
      var da, ca := Parts(a);
      var db, cb := Parts(b);
      ClockTextReads(ca, cb);
      ClockTextReads(cb, ca);
      var text := Iso8601Basic(a);
      assert text[|text| - 8..] == "T" + (ClockText(ca) + "Z") == "T" + (ClockText(cb) + "Z");
      assert text[|text| - 7..|text| - 1] == ClockText(ca) == ClockText(cb);
      assert text[..|text| - 8] == DateText(da) == DateText(db);
      DateTextReads(da, db);
    }
  }

  /** `n` as decimal digits, at that place of a text. */
  predicate NumberAt(text: string, from: nat, width: nat, n: int) {
    from + width <= |text| && AllDigits(text[from..from + width]) && Value(text[from..from + width]) == n
  }

  /** What a name is made of: years of four digits and two for everything else. */
  lemma NameSpelled(secs: nat)
    requires CivilFromDays(secs / 86400).year < 10000
    ensures var (name, date, clock) := (Iso8601Basic(secs), CivilFromDays(secs / 86400), ClockOf(secs % 86400));
            && |name| == 16 && name[8] == 'T' && name[15] == 'Z'
            && NumberAt(name, 0, 4, date.year) && NumberAt(name, 4, 2, date.month) && NumberAt(name, 6, 2, date.day)
            && NumberAt(name, 9, 2, clock.hour) && NumberAt(name, 11, 2, clock.minute)
            && NumberAt(name, 13, 2, clock.second)
  {
    hide *;
    var date, clock := Parts(secs);
    TwoDigitsEach(date, clock);
    FieldsAt(date, clock);
  }

  lemma FieldsAt(date: Date, clock: Clock)
    requires NumberAt(Pad(date.year, 4), 0, 4, date.year) && |Pad(date.year, 4)| == 4
    requires forall n :: n in {date.month, date.day, clock.hour, clock.minute, clock.second} ==>
               NumberAt(Pad(n, 2), 0, 2, n) && |Pad(n, 2)| == 2
    ensures var name := DateText(date) + ("T" + (ClockText(clock) + "Z"));
            && |name| == 16 && name[8] == 'T' && name[15] == 'Z'
            && NumberAt(name, 0, 4, date.year) && NumberAt(name, 4, 2, date.month) && NumberAt(name, 6, 2, date.day)
            && NumberAt(name, 9, 2, clock.hour) && NumberAt(name, 11, 2, clock.minute)
            && NumberAt(name, 13, 2, clock.second)
  {
    hide Pad, NumberAt;
    var name := DateText(date) + ("T" + (ClockText(clock) + "Z"));
    InPlace(Pad(date.year, 4), name, 0, date.year);
    InPlace(Pad(date.month, 2), name, 4, date.month);
    InPlace(Pad(date.day, 2), name, 6, date.day);
    InPlace(Pad(clock.hour, 2), name, 9, clock.hour);
    InPlace(Pad(clock.minute, 2), name, 11, clock.minute);
    InPlace(Pad(clock.second, 2), name, 13, clock.second);
  }

  lemma InPlace(field: string, text: string, from: nat, n: int)
    requires NumberAt(field, 0, |field|, n) && from + |field| <= |text|
    requires forall i :: 0 <= i < |field| ==> text[from + i] == field[i]
    ensures NumberAt(text, from, |field|, n)
  {
    assert text[from..from + |field|] == field[0..|field|] == field;
  }

  lemma TwoDigitsEach(date: Date, clock: Clock)
    requires Valid(date) && 0 <= date.year < 10000 && SaneClock(clock)
    ensures NumberAt(Pad(date.year, 4), 0, 4, date.year) && |Pad(date.year, 4)| == 4
    ensures forall n :: n in {date.month, date.day, clock.hour, clock.minute, clock.second} ==>
              NumberAt(Pad(n, 2), 0, 2, n) && |Pad(n, 2)| == 2
  {
    Pow10Grows(4);
    Pow10Grows(3);
    Pow10Grows(2);
    PadReads(date.year, 4);
    hide Value, AllDigits, PadNat;
    assert Pad(date.year, 4)[0..4] == Pad(date.year, 4);
    forall n | n in {date.month, date.day, clock.hour, clock.minute, clock.second}
      ensures NumberAt(Pad(n, 2), 0, 2, n) && |Pad(n, 2)| == 2
    {
      assert 0 <= n < 100;
      TwoDigits(n);
      assert Pad(n, 2)[0..2] == Pad(n, 2);
    }
  }

  // ---- Later instants have later names, as text ----

  lemma FieldsInOrder(n: nat, m: nat, width: nat, x: string, y: string)
    requires width > 0 && n <= m < Pow10(width)
    requires n == m ==> Less(x, y)
    ensures Less(PadNat(n, width) + x, PadNat(m, width) + y)
  {
    if n < m {
      PadInOrder(n, m, width);
      PadReads(n, width);
      PadReads(m, width);
      LessThen(PadNat(n, width), PadNat(m, width), x, y);
    } else {
      SameThenLess(PadNat(n, width), x, y);
    }
  }

  /** The first second that no four-digit year holds: 10000-01-01T00:00:00Z. */
  const FIVE_DIGITS := 253402300800

  lemma FourDigits(secs: nat)
    requires secs < FIVE_DIGITS
    ensures CivilFromDays(secs / 86400).year <= 9999
  {
    var days := secs / 86400;
    assert CivilFromDays(2932896) == Date(9999, 12, 31);
    hide CivilFromDays;
    if days < 2932896 {
      DatesAreOrdered(days, 2932896);
    }
  }

  lemma NamesInOrder(a: nat, b: nat)
    requires a < b < FIVE_DIGITS
    ensures Less(Iso8601Basic(a), Iso8601Basic(b))
  {
    hide Iso8601Basic;
    hide CivilFromDays;
    hide DaysFromCivil;
    var da, ca := Parts(a);
    var db, cb := Parts(b);
    FourDigits(a);
    FourDigits(b);
    if a / 86400 < b / 86400 {
      DatesAreOrdered(a / 86400, b / 86400);
      DateTextsInOrder(da, db);
      DateTextLength(da);
      DateTextLength(db);
      LessThen(DateText(da), DateText(db), "T" + (ClockText(ca) + "Z"), "T" + (ClockText(cb) + "Z"));
    } else {
      ClockTextsInOrder(ca, cb);
      SameThenLess("T", ClockText(ca) + "Z", ClockText(cb) + "Z");
      SameThenLess(DateText(da), "T" + (ClockText(ca) + "Z"), "T" + (ClockText(cb) + "Z"));
    }
  }

  lemma YearWidth()
    ensures Pow10(2) == 100 && Pow10(4) == 10000
  {
    Pow10Grows(2);
    Pow10Grows(3);
    Pow10Grows(4);
  }

  lemma DateTextLength(date: Date)
    requires Valid(date) && 0 <= date.year <= 9999
    ensures |DateText(date)| == 8
  {
    YearWidth();
    PadReads(date.year, 4);
    TwoDigits(date.month);
    TwoDigits(date.day);
  }

  lemma DateTextsInOrder(a: Date, b: Date)
    requires Valid(a) && Valid(b) && 0 <= a.year && b.year <= 9999 && Before(a, b)
    ensures Less(DateText(a), DateText(b))
  {
    YearWidth();
    if a.year == b.year {
      if a.month == b.month {
        PadInOrder(a.day, b.day, 2);
      }
      FieldsInOrder(a.month, b.month, 2, Pad(a.day, 2), Pad(b.day, 2));
    }
    FieldsInOrder(a.year, b.year, 4, Pad(a.month, 2) + Pad(a.day, 2), Pad(b.month, 2) + Pad(b.day, 2));
  }

  lemma ClockTextsInOrder(a: Clock, b: Clock)
    requires SaneClock(a) && SaneClock(b)
    requires a.hour * 3600 + a.minute * 60 + a.second < b.hour * 3600 + b.minute * 60 + b.second
    ensures Less(ClockText(a) + "Z", ClockText(b) + "Z")
  {
    YearWidth();
    if a.hour == b.hour {
      if a.minute == b.minute {
        PadInOrder(a.second, b.second, 2);
        TwoDigits(a.second);
        TwoDigits(b.second);
        LessThen(Pad(a.second, 2), Pad(b.second, 2), "Z", "Z");
      }
      FieldsInOrder(a.minute, b.minute, 2, Pad(a.second, 2) + "Z", Pad(b.second, 2) + "Z");
    }
    FieldsInOrder(a.hour, b.hour, 2, Pad(a.minute, 2) + (Pad(a.second, 2) + "Z"),
                  Pad(b.minute, 2) + (Pad(b.second, 2) + "Z"));
    assert forall c: Clock :: ClockText(c) + "Z" == Pad(c.hour, 2) + (Pad(c.minute, 2) + (Pad(c.second, 2) + "Z"));
  }

  /** Names sort as text in the order of their instants up to a horizon if and
      only if the horizon is inside year 9999. */
  lemma NamesSortIff(horizon: nat)
    ensures (forall a: nat, b: nat :: a < b <= horizon ==> Less(Iso8601Basic(a), Iso8601Basic(b))) <==>
            horizon < FIVE_DIGITS
  {
    hide CivilFromDays;
    if horizon < FIVE_DIGITS {
      hide Iso8601Basic;
      forall a: nat, b: nat | a < b <= horizon
        ensures Less(Iso8601Basic(a), Iso8601Basic(b))
      {
        NamesInOrder(a, b);
      }
    } else {
      FifthDigit();
    }
  }

  lemma FifthDigit()
    ensures !Less(Iso8601Basic(FIVE_DIGITS - 1), Iso8601Basic(FIVE_DIGITS))
  {
    YearTexts();
    hide CivilFromDays;
    hide DaysFromCivil;
    var da, ca := Parts(FIVE_DIGITS - 1);
    var db, cb := Parts(FIVE_DIGITS);
    hide *;
  }

  lemma YearTexts()
    ensures CivilFromDays((FIVE_DIGITS - 1) / 86400) == Date(9999, 12, 31)
    ensures CivilFromDays(FIVE_DIGITS / 86400) == Date(10000, 1, 1)
    ensures Pad(9999, 4) == "9999" && Pad(10000, 4) == "10000"
  {
    hide CivilFromDays;
    DateRoundTrip(Date(9999, 12, 31));
    DateRoundTrip(Date(10000, 1, 1));
    assert DaysFromCivil(Date(9999, 12, 31)) == 2932896 && DaysFromCivil(Date(10000, 1, 1)) == 2932897;
    assert PadNat(9, 1) == "9" && PadNat(99, 2) == "99" && PadNat(999, 3) == "999";
    assert PadNat(1, 0) == "1" && PadNat(10, 1) == "10" && PadNat(100, 2) == "100" && PadNat(1000, 3) == "1000";
  }

  // ---- The next free name ----

  /** Nanoseconds in a second: an instant is counted in them, from the epoch. */
  const SECOND := 1_000_000_000

  /** The name a scheme gives an instant. Before the epoch, every instant is
      named as the epoch is. */
  function NameAt(prefix: string, at: int): string {
    prefix + Iso8601Basic(if at < 0 then 0 else at / SECOND)
  }

  function After(now: int, seconds: nat): int {
    now + seconds * SECOND
  }

  /** Before the epoch there is one name: the epoch's own. */
  lemma BeforeTheEpoch(prefix: string, at: int)
    ensures at < 0 ==> NameAt(prefix, at) == prefix + "19700101T000000Z"
    ensures at >= 0 ==> NameAt(prefix, at) == prefix + Iso8601Basic(at / 1_000_000_000)
  {
    hide CivilFromDays, Iso8601Basic, PadNat, Pad;
    EpochName();
  }

  lemma EpochName()
    ensures Iso8601Basic(0) == "19700101T000000Z"
  {
    EpochTexts();
    EpochDay();
    hide CivilFromDays, DateText, ClockText, ClockOf;
    assert Iso8601Basic(0) == DateText(Date(1970, 1, 1)) + ("T" + (ClockText(ClockOf(0)) + "Z"));
  }

  lemma EpochTexts()
    ensures DateText(Date(1970, 1, 1)) == "19700101" && ClockText(ClockOf(0)) == "000000"
  {
    assert PadNat(1, 1) == "1" && PadNat(19, 2) == "19" && PadNat(197, 3) == "197" && PadNat(1970, 4) == "1970";
    assert PadNat(0, 1) == "0" && PadNat(1, 2) == "01" && PadNat(0, 2) == "00";
  }

  /** The seconds until the epoch is reached: none, from the epoch on. */
  function Wait(now: int): (seconds: nat)
    ensures After(now, seconds) >= 0
    ensures forall fewer: nat :: fewer < seconds ==> After(now, fewer) < 0
  {
    if now < 0 then (-now + SECOND - 1) / SECOND else 0
  }

  lemma SecondsDiffer(prefix: string, now: int, i: nat, j: nat)
    requires After(now, i) >= 0 && After(now, j) >= 0
    requires NameAt(prefix, After(now, i)) == NameAt(prefix, After(now, j))
    ensures i == j
  {
    hide Iso8601Basic;
    var a, b := After(now, i) / SECOND, After(now, j) / SECOND;
    assert NameAt(prefix, After(now, i))[|prefix|..] == Iso8601Basic(a);
    assert NameAt(prefix, After(now, j))[|prefix|..] == Iso8601Basic(b);
    NamesDiffer(a, b);
    assert After(now, i) / SECOND == now / SECOND + i && After(now, j) / SECOND == now / SECOND + j;
  }

  lemma {:induction false} DistinctAtMost(taken: seq<string>)
    ensures |set s | s in taken| <= |taken|
  {
    if taken != [] {
      DistinctAtMost(taken[1..]);
      assert (set s | s in taken) == {taken[0]} + set s | s in taken[1..];
    }
  }

  lemma FewEnough(seen: set<string>, all: set<string>)
    requires seen <= all
    ensures |seen| <= |all|
  {
    if seen != all {
      assert all == seen + (all - seen);
    }
  }

  /** The first second at or after `now` whose name is not taken, found after
      at most as many steps as there are names, once the epoch is reached. */
  method NextFreeName(prefix: string, now: int, taken: seq<string>) returns (name: string, at: int, ghost steps: nat)
    ensures at == now + steps * 1_000_000_000 && name == NameAt(prefix, at) && name !in taken
    ensures forall j :: 0 <= j < steps ==> NameAt(prefix, After(now, j)) in taken
    ensures steps <= Wait(now) + |taken|
  {
    hide Iso8601Basic;
    at, steps := now, 0;
    ghost var all := set s | s in taken;
    ghost var seen: set<string> := {};
    DistinctAtMost(taken);
    while true
      invariant at == After(now, steps)
      invariant forall j :: 0 <= j < steps ==> NameAt(prefix, After(now, j)) in taken
      invariant seen == set j | 0 <= j < steps && After(now, j) >= 0 :: NameAt(prefix, After(now, j))
      invariant seen <= all
      invariant steps <= Wait(now) + |seen|
      invariant |seen| <= |all|
      decreases Wait(now) + |all| - steps
    {
      name := NameAt(prefix, at);
      if name !in taken {
        return;
      }
      if at >= 0 {
        forall j | 0 <= j < steps && After(now, j) >= 0
          ensures NameAt(prefix, After(now, j)) != name
        {
          if NameAt(prefix, After(now, j)) == name {
            SecondsDiffer(prefix, now, j, steps);
          }
        }
        assert name !in seen;
        seen := seen + {name};
      } else {
        assert steps < Wait(now);
      }
      at := at + SECOND;
      steps := steps + 1;
      FewEnough(seen, all);
    }
  }
}
