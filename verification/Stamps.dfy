/** An instant as the text Borg is given, and as the index reads it back
    (xtask/src/main.rs, crates/backtrack-core/src/index/item.rs). */
module Stamps {
  import opened Text
  import opened Calendar

  /** Epoch seconds as `YYYY-MM-DDThh:mm:ss`. */
  function UtcStamp(epoch: int): string {
    var date := CivilFromDaysEuclid(epoch / 86400);
    var clock := ClockOf(epoch % 86400);
    Joined(Pad(date.year, 4), Pad(date.month, 2), Pad(date.day, 2), '-') + "T" +
    Joined(Pad(clock.hour, 2), Pad(clock.minute, 2), Pad(clock.second, 2), ':')
  }

  function Joined(a: string, b: string, c: string, mark: char): string {
    a + [mark] + b + [mark] + c
  }

  // ---- The reader ----

  function SplitOnce(s: string, at: char): Option<(string, string)> {
    if s == [] then None
    else if s[0] == at then Some(("", s[1..]))
    else match SplitOnce(s[1..], at)
      case None => None
      case Some((before, after)) => Some(([s[0]] + before, after))
  }

  /** A signed number: an optional sign, and digits, at least one. */
  function ParseInt(s: string): Option<int> {
    var digits := if s != [] && (s[0] == '+' || s[0] == '-') then s[1..] else s;
    if digits == [] || !AllDigits(digits) then None
    else
      var value: int := Value(digits);
      Some(if s[0] == '-' then -value else value)
  }

  /** Three numbers apart by `mark`; anything after the second is the third. */
  function ParseThree(s: string, mark: char): Option<(int, int, int)> {
    match SplitOnce(s, mark)
    case None => None
    case Some((first, rest)) =>
      match SplitOnce(rest, mark)
      case None => None
      case Some((second, third)) =>
        match (ParseInt(first), ParseInt(second), ParseInt(third))
        case (Some(a), Some(b), Some(c)) => Some((a, b, c))
        case _ => None
  }

  /** The digits a fraction starts with, as millionths; none at all is an error. */
  function ParseFraction(s: string): Option<int> {
    var digits := LeadingDigits(s);
    if digits == [] then None else Some(Value((digits + "000000")[..6]))
  }

  function LeadingDigits(s: string): (digits: string)
    ensures AllDigits(digits)
  {
    if s == [] || !IsDigit(s[0]) then [] else [s[0]] + LeadingDigits(s[1..])
  }

  /** Microseconds since the epoch of `YYYY-MM-DDThh:mm:ss[.ffffff]`. */
  function ParseBorgMtime(s: string): Option<int> {
    match SplitOnce(s, 'T')
    case None => None
    case Some((date, rest)) =>
      var (time, micros) := match SplitOnce(rest, '.')
        case None => (rest, Some(0))
        case Some((whole, fraction)) => (whole, ParseFraction(fraction));
      match (ParseThree(date, '-'), ParseThree(time, ':'), micros)
      case (Some((y, m, d)), Some((h, mi, sec)), Some(us)) =>
        Some((DaysFromCivil(Date(y, m, d)) * 86400 + h * 3600 + mi * 60 + sec) * 1_000_000 + us)
      case _ => None
  }

  // ---- What the reader makes of a stamp ----

  predicate Without(s: string, c: char) {
    forall i :: 0 <= i < |s| ==> s[i] != c
  }

  lemma {:induction false} SplitsAtFirst(before: string, at: char, after: string)
    requires Without(before, at)
    ensures SplitOnce(before + [at] + after, at) == Some((before, after))
  {
    var s := before + [at] + after;
    if before == [] {
      assert s[1..] == after;
    } else {
      SplitsAtFirst(before[1..], at, after);
      assert s[1..] == before[1..] + [at] + after;
      assert before == [before[0]] + before[1..];
    }
  }

  lemma {:induction false} NothingToSplit(s: string, at: char)
    requires Without(s, at)
    ensures SplitOnce(s, at) == None
  {
    if s != [] {
      NothingToSplit(s[1..], at);
    }
  }

  /** What a padded number reads as, and the separators that are not in it. */
  lemma PadParses(n: nat, width: nat)
    ensures ParseInt(Pad(n, width)) == Some(n)
    ensures forall c :: !IsDigit(c) ==> Without(Pad(n, width), c)
  {
    PadReads(n, width);
  }

  lemma ThreeParse(a: nat, b: nat, c: nat, width: nat, mark: char)
    requires !IsDigit(mark)
    ensures ParseThree(Joined(Pad(a, width), Pad(b, 2), Pad(c, 2), mark), mark) == Some((a, b, c))
    ensures forall x :: !IsDigit(x) && x != mark ==> Without(Joined(Pad(a, width), Pad(b, 2), Pad(c, 2), mark), x)
  {
    hide Pad, SplitOnce, ParseInt;
    var x, y, z := Pad(a, width), Pad(b, 2), Pad(c, 2);
    PadParses(a, width);
    PadParses(b, 2);
    PadParses(c, 2);
    SplitsAtFirst(x, mark, y + [mark] + z);
    assert Joined(x, y, z, mark) == x + [mark] + (y + [mark] + z);
    SplitsAtFirst(y, mark, z);
  }

  /** A negative year's text starts with the separator: no number before it. */
  lemma NegativeYear(year: int, rest: string)
    requires year < 0
    ensures ParseThree(Pad(year, 4) + ['-'] + rest, '-') == None
  {
    var s := Pad(year, 4) + ['-'] + rest;
    assert s == "" + ['-'] + s[1..];
    SplitsAtFirst("", '-', s[1..]);
    assert ParseInt("") == None;
  }

  lemma StampParts(epoch: int) returns (date: Date, clock: Clock)
    ensures Valid(date) && SaneClock(clock)
    ensures date == CivilFromDays(epoch / 86400)
    ensures epoch == DaysFromCivil(date) * 86400 + clock.hour * 3600 + clock.minute * 60 + clock.second
    ensures UtcStamp(epoch) == Joined(Pad(date.year, 4), Pad(date.month, 2), Pad(date.day, 2), '-') + "T" +
                               Joined(Pad(clock.hour, 2), Pad(clock.minute, 2), Pad(clock.second, 2), ':')
  {
    date, clock := CivilFromDaysEuclid(epoch / 86400), ClockOf(epoch % 86400);
    hide CivilFromDays;
    hide CivilFromDaysEuclid;
    hide DaysFromCivil;
    DayRoundTrip(epoch / 86400);
    CopiesAgree(epoch / 86400, 0);
    ClockParts(epoch % 86400);
  }

  lemma StampSplits(date: string, time: string)
    requires Without(date, 'T') && Without(time, '.')
    ensures SplitOnce(date + "T" + time, 'T') == Some((date, time)) && SplitOnce(time, '.') == None
  {
    SplitsAtFirst(date, 'T', time);
    NothingToSplit(time, '.');
  }

  /** What a signed number reads as. */
  lemma SignsRead(digits: string)
    requires digits != [] && AllDigits(digits)
    ensures ParseInt(digits) == Some(Value(digits)) && ParseInt("+" + digits) == Some(Value(digits))
    ensures ParseInt("-" + digits) == Some(-(Value(digits) as int))
  {
    hide Value;
    assert ("+" + digits)[1..] == digits && ("-" + digits)[1..] == digits;
  }

  /** A number is read of digits with at most one sign, and of nothing else. */
  lemma IntsRead(s: string)
    ensures ParseInt(s).Some? <==> exists d :: d != [] && AllDigits(d) && (s == d || s == "+" + d || s == "-" + d)
  {
    if ParseInt(s).Some? {
      var d := if s[0] == '+' || s[0] == '-' then s[1..] else s;
      assert s == d || s == "+" + d || s == "-" + d;
    }
    if d :| d != [] && AllDigits(d) && (s == d || s == "+" + d || s == "-" + d) {
      SignsRead(d);
    }
  }

  lemma MtimeOf(date: string, time: string)
    requires Without(date, 'T') && Without(time, '.')
    ensures var (d, t) := (ParseThree(date, '-'), ParseThree(time, ':'));
            ParseBorgMtime(date + "T" + time) ==
            if d.Some? && t.Some? then
              Some((DaysFromCivil(Date(d.value.0, d.value.1, d.value.2)) * 86400 +
                    t.value.0 * 3600 + t.value.1 * 60 + t.value.2) * 1_000_000)
            else None
  {
    hide ParseThree;
    hide DaysFromCivil;
    StampSplits(date, time);
  }

  /** The index reads a stamp back as the instant it was made from if and only
      if the year is not before year 0. */
  lemma StampReadsBackIff(epoch: int)
    ensures ParseBorgMtime(UtcStamp(epoch)) ==
            if CivilFromDays(epoch / 86400).year >= 0 then Some(epoch * 1_000_000) else None
  {
    hide *;
    var date, clock := StampParts(epoch);
    var d := Joined(Pad(date.year, 4), Pad(date.month, 2), Pad(date.day, 2), '-');
    var t := Joined(Pad(clock.hour, 2), Pad(clock.minute, 2), Pad(clock.second, 2), ':');
    ClockPart(clock);
    DatePart(date);
    MtimeOf(d, t);
  }

  // ---- With a fraction ----

  lemma {:induction false} LeadingAre(digits: string, rest: string)
    requires AllDigits(digits) && (rest == [] || !IsDigit(rest[0]))
    ensures LeadingDigits(digits + rest) == digits
  {
    if digits == [] {
      assert digits + rest == rest;
    } else {
      LeadingAre(digits[1..], rest);
      assert (digits + rest)[1..] == digits[1..] + rest;
    }
  }

  /** A number with zeros after it. */
  lemma {:induction false} ZerosAfter(digits: string, zeros: string)
    requires AllDigits(digits) && forall i :: 0 <= i < |zeros| ==> zeros[i] == '0'
    ensures AllDigits(digits + zeros) && Value(digits + zeros) == Value(digits) * Pow10(|zeros|)
  {
    if zeros == [] {
      assert digits + zeros == digits;
    } else {
      var less := zeros[..|zeros| - 1];
      ZerosAfter(digits, less);
      assert digits + zeros == (digits + less) + ['0'];
      ReadsLast(digits + less, '0');
    }
  }

  /** A stamp with a fraction reads as the same second and, of the fraction's
      leading digits, the first six as millionths; without one it is refused. */
  lemma {:induction false} FractionReads(epoch: int, digits: string, rest: string)
    requires AllDigits(digits) && (rest == [] || !IsDigit(rest[0]))
    ensures ParseBorgMtime(UtcStamp(epoch) + "." + digits + rest) ==
            if CivilFromDays(epoch / 86400).year < 0 || digits == [] then None
            else if |digits| >= 6 then Some(epoch * 1_000_000 + Value(digits[..6]))
            else Some(epoch * 1_000_000 + Value(digits) * Pow10(6 - |digits|))
  {
    hide CivilFromDays, DaysFromCivil, CivilFromDaysEuclid, UtcStamp, Joined, Pad, ParseThree, Value, SplitOnce;
    hide ClockOf, LeadingDigits, Pow10;
    var date, clock := StampParts(epoch);
    var d := Joined(Pad(date.year, 4), Pad(date.month, 2), Pad(date.day, 2), '-');
    var t := Joined(Pad(clock.hour, 2), Pad(clock.minute, 2), Pad(clock.second, 2), ':');
    ClockPart(clock);
    DatePart(date);
    var f := digits + rest;
    assert UtcStamp(epoch) + "." + digits + rest == d + ['T'] + (t + ['.'] + f);
    SplitsAtFirst(d, 'T', t + ['.'] + f);
    SplitsAtFirst(t, '.', f);
    LeadingAre(digits, rest);
    if 0 < |digits| {
      if |digits| >= 6 {
        assert (digits + "000000")[..6] == digits[..6];
      } else {
        var zeros := "000000"[..6 - |digits|];
        ZerosAfter(digits, zeros);
        assert (digits + "000000")[..6] == digits + zeros;
      }
    }
  }

  /** A year in four characters, a minus sign one of them. */
  predicate FourOf(year: int, text: string) {
    && |text| == 4
    && if year >= 0 then AllDigits(text) && Value(text) == year
       else text[0] == '-' && AllDigits(text[1..]) && Value(text[1..]) == -year
  }

  /** A stamp's text, of a year that fits four characters. */
  lemma StampShape(epoch: int)
    requires -1000 < CivilFromDays(epoch / 86400).year < 10000
    ensures var s := UtcStamp(epoch);
            && |s| == 19 && FourOf(CivilFromDays(epoch / 86400).year, s[..4])
            && s[4] == s[7] == '-' && s[10] == 'T' && s[13] == s[16] == ':'
  {
    hide CivilFromDays, DaysFromCivil, CivilFromDaysEuclid, UtcStamp, ClockOf, Pow10, AllDigits, Value;
    var date, clock := StampParts(epoch);
    Powers();
    YearIsFour(date.year);
    hide FourOf, PadNat;
    PadReads(date.month, 2);
    PadReads(date.day, 2);
    PadReads(clock.hour, 2);
    PadReads(clock.minute, 2);
    PadReads(clock.second, 2);
    assert UtcStamp(epoch)[..4] == Pad(date.year, 4);
  }

  lemma YearIsFour(year: int)
    requires -1000 < year < 10000
    ensures FourOf(year, Pad(year, 4)) && |Pad(year, 4)| == 4
  {
    Powers();
    hide PadNat, Pow10, AllDigits, Value;
    if year >= 0 {
      PadReads(year, 4);
    } else {
      PadReads(-year, 3);
      assert Pad(year, 4)[1..] == PadNat(-year, 3);
    }
  }

  lemma Powers()
    ensures Pow10(2) == 100 && Pow10(3) == 1000 && Pow10(4) == 10000
  {
    assert Pow10(1) == 10 * Pow10(0);
    assert Pow10(3) == 10 * Pow10(2);
  }

  lemma ClockPart(clock: Clock)
    requires SaneClock(clock)
    ensures var t := Joined(Pad(clock.hour, 2), Pad(clock.minute, 2), Pad(clock.second, 2), ':');
            Without(t, '.') && ParseThree(t, ':') == Some((clock.hour, clock.minute, clock.second))
  {
    ThreeParse(clock.hour, clock.minute, clock.second, 2, ':');
  }

  lemma DatePart(date: Date)
    requires Valid(date)
    ensures var d := Joined(Pad(date.year, 4), Pad(date.month, 2), Pad(date.day, 2), '-');
            && Without(d, 'T')
            && ParseThree(d, '-') == if date.year >= 0 then Some((date.year, date.month, date.day)) else None
  {
    hide ParseThree;
    hide Pad;
    var y, m, d := Pad(date.year, 4), Pad(date.month, 2), Pad(date.day, 2);
    if date.year >= 0 {
      ThreeParse(date.year, date.month, date.day, 4, '-');
    } else {
      NoTInYear(date.year);
      PadParses(date.month, 2);
      PadParses(date.day, 2);
      assert Joined(y, m, d, '-') == y + ['-'] + (m + ['-'] + d);
      NegativeYear(date.year, m + ['-'] + d);
    }
  }

  lemma NoTInYear(year: int)
    requires year < 0
    ensures Without(Pad(year, 4), 'T')
  {
    PadParses(-year, 3);
  }
}
