/**
 * `parseMatchTime` (app.js:36-64): a `YYYY-MM-DD` date and a clock time with an
 * optional AM/PM marker become one instant, here a whole number of minutes
 * counted from 1970-01-01 00:00 of the local calendar.
 */
module MatchTime {
  import opened Wrappers
  import opened Text

  datatype Meridiem = AM | PM

  /** The three capture groups of `/(\d{1,2}):(\d{2})\s*(AM|PM)?/i`. */
  datatype Clock = Clock(hour: nat, minute: nat, period: Option<Meridiem>)

  const MinutesPerDay := 1440

  /** The optional `(AM|PM)` group, matched case-insensitively at position `q`. */
  function MarkerAt(s: string, q: nat): Option<Meridiem>
  {
    if q + 2 <= |s| && Upper(s[q + 1]) == 'M' then
      if Upper(s[q]) == 'A' then Some(AM)
      else if Upper(s[q]) == 'P' then Some(PM)
      else None
    else None
  }

  /** Where the greedy `\s*` that starts at `q` stops. */
  function SkipWhitespace(s: string, q: nat): (e: nat)
    requires q <= |s|
    ensures q <= e <= |s| && AllWhitespace(s[q..e])
    ensures e == |s| || !IsWhitespace(s[e])
    decreases |s| - q
  {
    if q < |s| && IsWhitespace(s[q]) then SkipWhitespace(s, q + 1) else q
  }

  /**
   * The regular expression tried at position `p`. `\d{1,2}` is greedy, so two
   * hour digits are tried first; the rest of the pattern after the minutes
   * always matches, so the only backtracking that matters is back to one digit.
   */
  function ClockAt(s: string, p: nat): (r: Option<Clock>)
    ensures r.Some? <==>
      (|| (p + 4 <= |s| && IsDigit(s[p]) && s[p + 1] == ':' && IsDigit(s[p + 2]) && IsDigit(s[p + 3]))
       || (p + 5 <= |s| && IsDigit(s[p]) && IsDigit(s[p + 1]) && s[p + 2] == ':' && IsDigit(s[p + 3]) && IsDigit(s[p + 4])))
    ensures r.Some? ==> r.value.hour < 100 && r.value.minute < 100
  {
    if p + 5 <= |s| && IsDigit(s[p]) && IsDigit(s[p + 1]) && s[p + 2] == ':'
       && IsDigit(s[p + 3]) && IsDigit(s[p + 4]) then
      Some(Clock(10 * DigitValue(s[p]) + DigitValue(s[p + 1]),
                 10 * DigitValue(s[p + 3]) + DigitValue(s[p + 4]),
                 MarkerAt(s, SkipWhitespace(s, p + 5))))
    else if p + 4 <= |s| && IsDigit(s[p]) && s[p + 1] == ':'
       && IsDigit(s[p + 2]) && IsDigit(s[p + 3]) then
      Some(Clock(DigitValue(s[p]),
                 10 * DigitValue(s[p + 2]) + DigitValue(s[p + 3]),
                 MarkerAt(s, SkipWhitespace(s, p + 4))))
    else None
  }

  /** `String.prototype.match` without the g flag: the match at the leftmost position where there is one. */
  function FindClockFrom(s: string, p: nat): Option<Clock>
    requires p <= |s|
    decreases |s| - p
  {
    if ClockAt(s, p).Some? then ClockAt(s, p)
    else if p == |s| then None
    else FindClockFrom(s, p + 1)
  }

  /**
   * The pattern's match in `s`: the clock at the leftmost position where the pattern
   * matches, if any (`FindClockLeftmost` states this in full).
   */
  function FindClock(s: string): (r: Option<Clock>)
    ensures ClockAt(s, 0).Some? ==> r == ClockAt(s, 0)
    ensures |s| < 4 ==> r.None?
    ensures r.Some? ==> r.value.hour < 100 && r.value.minute < 100
  {
    FindClockLeftmost(s, 0);
    FindClockFrom(s, 0)
  }

  /** The search finds the match at the leftmost matching position, and finds nothing only when no position matches. */
  lemma {:induction false} FindClockLeftmost(s: string, p: nat)
    requires p <= |s|
    ensures FindClockFrom(s, p).None? ==> forall q :: p <= q <= |s| ==> ClockAt(s, q).None?
    ensures FindClockFrom(s, p).Some? ==> exists q :: p <= q <= |s| && ClockAt(s, q) == FindClockFrom(s, p)
                                            && forall q' :: p <= q' < q ==> ClockAt(s, q').None?
    decreases |s| - p
  {
    if ClockAt(s, p).None? && p < |s| {
      FindClockLeftmost(s, p + 1);
      if FindClockFrom(s, p).Some? {
        var q :| p + 1 <= q <= |s| && ClockAt(s, q) == FindClockFrom(s, p)
                 && forall q' :: p + 1 <= q' < q ==> ClockAt(s, q').None?;
        assert forall q' :: p <= q' < q ==> ClockAt(s, q').None?;
      }
    }
  }

  /**
   * The 12-hour to 24-hour conversion of app.js:51-61. Any hour `\d{1,2}` reads is
   * converted, so "13:00 PM" gives hour 25; on hours up to 12 with a marker the
   * result is a proper hour of the day, in the afternoon exactly for PM.
   */
  function Hour24(c: Clock): (h: nat)
    ensures c.period.None? ==> h == c.hour
    ensures c.period.Some? && c.hour <= 12 ==> h < 24 && (h >= 12 <==> c.period == Some(PM))
  {
    match c.period
    case Some(PM) => if c.hour != 12 then c.hour + 12 else c.hour
    case Some(AM) => if c.hour == 12 then 0 else c.hour
    case None => c.hour
  }

  /** A date part `parseInt` reads exactly: one to four decimal digits. */
  predicate IsDatePart(s: string)
  {
    1 <= |s| <= 4 && AllDigits(s)
  }

  /** The date text splits on '-' into at least three parts, the first three plain digit strings. */
  predicate DateOk(date: string)
  {
    var parts := Split(date, '-');
    |parts| >= 3 && IsDatePart(parts[0]) && IsDatePart(parts[1]) && IsDatePart(parts[2])
  }

  /** Day number of 1 March of year `y`: the civil year counted from March, leap day last. */
  function MarchFirst(y: int): int
  {
    var era := y / 400;
    var yoe := y - era * 400;
    era * 146097 + yoe * 365 + yoe / 4 - yoe / 100 - 719468
  }

  /** Days from 1 March to the first of the month `mp` months later (0 is March, 11 is February). */
  function MonthOffset(mp: int): int
  {
    (153 * mp + 2) / 5
  }

  /** Days from 1970-01-01 to year `y`, month `m` (1..12), day `d` of the proleptic Gregorian calendar. */
  function DaysFromCivil(y: int, m: int, d: int): int
    requires 1 <= m <= 12
  {
    var y' := if m <= 2 then y - 1 else y;
    var mp := if m > 2 then m - 3 else m + 9;
    MarchFirst(y') + MonthOffset(mp) + d - 1
  }

  /**
   * `new Date(year, monthIndex, day)` as a day number: a year from 0 to 99 means
   * 1900 + year, a month index outside 0..11 carries into the year, and the day
   * counts on from the first of the month.
   */
  function DayNumber(year: int, monthIndex: int, day: int): int
  {
    var fullYear := if 0 <= year <= 99 then 1900 + year else year;
    DaysFromCivil(fullYear + monthIndex / 12, monthIndex % 12 + 1, 1) + day - 1
  }

  /** Local midnight of a `YYYY-MM-DD` date, in minutes. */
  function Midnight(date: string): int
    requires DateOk(date)
  {
    var parts := Split(date, '-');
    DayNumber(DigitsValue(parts[0]), DigitsValue(parts[1]) - 1, DigitsValue(parts[2])) * MinutesPerDay
  }

  /** The time text leads `parseMatchTime` past its early `null` return and reads a clock. */
  predicate ReadsClock(time: string)
  {
    time != "" && time != "N/A" && FindClock(time).Some?
  }

  /**
   * `parseMatchTime(timeStr, dateStr)`: `None` for an empty time, for "N/A" and for
   * a time holding no clock; otherwise midnight of the date plus the 24-hour clock.
   */
  function ParseMatchTime(time: string, date: string): (r: Option<int>)
    requires ReadsClock(time) ==> DateOk(date)
    ensures r.None? <==> time == "" || time == "N/A" || FindClock(time).None?
  {
    if time == "" || time == "N/A" then None
    else match FindClock(time)
      case None => None
      case Some(c) => Some(Midnight(date) + 60 * Hour24(c) + c.minute)
  }
}

module MatchTimeFacts {
  import opened Wrappers
  import opened Text
  import opened MatchTime

  /**
   * The conversion for every hour `\d{1,2}` can read: PM adds 12 except to 12, AM
   * turns 12 into 0, no marker keeps the hour. On the hours 1 to 12 of a 12-hour
   * clock this is the usual rule: 12 AM is 0 and 12 PM is 12.
   */
  lemma TwelveHourConversion(hour: nat, minute: nat)
    ensures Hour24(Clock(hour, minute, Some(PM))) == if hour == 12 then 12 else hour + 12
    ensures Hour24(Clock(hour, minute, Some(AM))) == if hour == 12 then 0 else hour
    ensures Hour24(Clock(hour, minute, None)) == hour
    ensures 1 <= hour <= 12 ==> Hour24(Clock(hour, minute, Some(AM))) == hour % 12
    ensures 1 <= hour <= 12 ==> Hour24(Clock(hour, minute, Some(PM))) == hour % 12 + 12
  {
  }

  /** Day 0 is 1 January 1970. */
  lemma Epoch()
    ensures DayNumber(1970, 0, 1) == 0
  {
    assert MarchFirst(1969) == 4 * 146097 + 369 * 365 + 369 / 4 - 369 / 100 - 719468;
    assert MonthOffset(10) == 306;
  }

  /** 2024 is a leap year: day 30 of February is 1 March. */
  lemma LeapDayOverflow()
    ensures DayNumber(2024, 1, 30) == DayNumber(2024, 2, 1)
  {
    assert IsLeapYear(2024);
    FebruaryLength(2024);
    assert DayNumber(2024, 1, 30) == DayNumber(2024, 1, 1) + 29;
  }

  /** The Gregorian leap-year rule. */
  predicate IsLeapYear(y: int)
  {
    y % 4 == 0 && (y % 100 != 0 || y % 400 == 0)
  }

  /** The length of the month with index `monthIndex` (0 is January) in year `y`. */
  function DaysIn(y: int, monthIndex: int): int
    requires 0 <= monthIndex < 12
  {
    if monthIndex == 1 then (if IsLeapYear(y) then 29 else 28)
    else if monthIndex == 3 || monthIndex == 5 || monthIndex == 8 || monthIndex == 10 then 30
    else 31
  }

  /** Within a 400-year cycle, `yoe / 4` moves on by one exactly when `yoe + 1` is a multiple of 4. */
  lemma FourStep(yoe: int)
    requires 0 <= yoe < 399
    ensures (yoe + 1) / 4 - yoe / 4 == if (yoe + 1) % 4 == 0 then 1 else 0
  {
  }

  /** Within a 400-year cycle, `yoe / 100` moves on by one exactly when `yoe + 1` is a multiple of 100. */
  lemma HundredStep(yoe: int)
    requires 0 <= yoe < 399
    ensures (yoe + 1) / 100 - yoe / 100 == if (yoe + 1) % 100 == 0 then 1 else 0
  {
  }

  /** Adding whole multiples of `k` leaves the remainder by `k` unchanged (k = 4, 100, 400). */
  lemma MultipleOfFour(q: int, x: int)
    ensures (q * 4 + x) % 4 == x % 4
  {
  }

  lemma MultipleOfHundred(q: int, x: int)
    ensures (q * 100 + x) % 100 == x % 100
  {
  }

  lemma MultipleOfFourHundred(q: int, x: int)
    ensures (q * 400 + x) % 400 == x % 400
  {
  }

  /** Whole 400-year cycles do not change a year's remainders by 4, 100 and 400. */
  lemma CycleRemainders(era: int, x: int)
    ensures (era * 400 + x) % 4 == x % 4
    ensures (era * 400 + x) % 100 == x % 100
    ensures (era * 400 + x) % 400 == x % 400
  {
    var q4, q100 := era * 100, era * 4;
    assert era * 400 == q4 * 4 && era * 400 == q100 * 100;
    MultipleOfFour(q4, x);
    MultipleOfHundred(q100, x);
    MultipleOfFourHundred(era, x);
  }

  /** From one 1 March to the next there are 366 days when the later year is a leap year, else 365. */
  lemma MarchToMarch(y: int)
    ensures MarchFirst(y + 1) - MarchFirst(y) == if IsLeapYear(y + 1) then 366 else 365
  {
    var era := y / 400;
    var yoe := y - era * 400;
    assert 0 <= yoe < 400;
    if yoe < 399 {
      assert (y + 1) / 400 == era;
      FourStep(yoe);
      HundredStep(yoe);
      CycleRemainders(era, yoe + 1);
      assert (y + 1) % 400 != 0;
    } else {
      assert (y + 1) / 400 == era + 1;
      CycleRemainders(era + 1, 0);
    }
  }

  /** For a year from 100 on, the first of month index 0..12 is the first of that civil month. */
  lemma FirstOfMonth(y: int, m: int)
    requires y >= 100 && 0 <= m <= 12
    ensures DayNumber(y, m, 1) == if m == 12 then DaysFromCivil(y + 1, 1, 1) else DaysFromCivil(y, m + 1, 1)
  {
    if m == 12 {
      assert m / 12 == 1 && m % 12 == 0;
    } else {
      assert m / 12 == 0 && m % 12 == m;
    }
  }

  /** The offset of the month after the one at March-based index `mp`, less its own offset. */
  lemma OffsetStep(mp: int)
    requires 0 <= mp < 11
    ensures MonthOffset(mp + 1) - MonthOffset(mp) == if mp == 1 || mp == 3 || mp == 6 || mp == 8 then 30 else 31
  {
    if mp == 0 {} else if mp == 1 {} else if mp == 2 {} else if mp == 3 {} else if mp == 4 {}
    else if mp == 5 {} else if mp == 6 {} else if mp == 7 {} else if mp == 8 {} else if mp == 9 {}
  }

  /** January (month index 0) has 31 days. */
  lemma JanuaryLength(y: int)
    requires y >= 100
    ensures DayNumber(y, 1, 1) - DayNumber(y, 0, 1) == 31
  {
    FirstOfMonth(y, 0);
    FirstOfMonth(y, 1);
    OffsetStep(10);
  }

  /** February has 29 days in a leap year and 28 otherwise. */
  lemma FebruaryLength(y: int)
    requires y >= 100
    ensures DayNumber(y, 2, 1) - DayNumber(y, 1, 1) == if IsLeapYear(y) then 29 else 28
  {
    FirstOfMonth(y, 1);
    FirstOfMonth(y, 2);
    assert DaysFromCivil(y, 2, 1) == MarchFirst(y - 1) + MonthOffset(11) && MonthOffset(11) == 337;
    assert DaysFromCivil(y, 3, 1) == MarchFirst(y) + MonthOffset(0) && MonthOffset(0) == 0;
    MarchToMarch(y - 1);
  }

  /** March to November: the months of one March-based year, lengths from the month offsets. */
  lemma MidYearLength(y: int, m: int)
    requires y >= 100 && 2 <= m < 11
    ensures DayNumber(y, m + 1, 1) - DayNumber(y, m, 1) == DaysIn(y, m)
  {
    FirstOfMonth(y, m);
    FirstOfMonth(y, m + 1);
    OffsetStep(m - 2);
  }

  /** December has 31 days: its first and the first of the next January share a March-based year. */
  lemma DecemberLength(y: int)
    requires y >= 100
    ensures DayNumber(y, 12, 1) - DayNumber(y, 11, 1) == 31
  {
    FirstOfMonth(y, 11);
    FirstOfMonth(y, 12);
    OffsetStep(9);
  }

  /**
   * `new Date(y, m + 1, 1)` falls exactly as many days after `new Date(y, m, 1)` as the
   * Gregorian month `m` of `y` has, so day numbers count every date once, in order.
   */
  lemma MonthLength(y: int, m: int)
    requires y >= 100 && 0 <= m < 12
    ensures DayNumber(y, m + 1, 1) - DayNumber(y, m, 1) == DaysIn(y, m)
  {
    if m == 0 {
      JanuaryLength(y);
    } else if m == 1 {
      FebruaryLength(y);
    } else if m < 11 {
      MidYearLength(y, m);
    } else {
      DecemberLength(y);
    }
  }

  /** Twelve months past a month index is the same month of the next year (`new Date` normalisation). */
  lemma MonthOverflow(year: int, monthIndex: int, day: int)
    requires year >= 100
    ensures DayNumber(year, monthIndex + 12, day) == DayNumber(year + 1, monthIndex, day)
  {
    assert (monthIndex + 12) / 12 == monthIndex / 12 + 1 && (monthIndex + 12) % 12 == monthIndex % 12;
  }

  /** Two letters that `(AM|PM)` with the i flag accepts. */
  predicate IsMarker(m: string)
  {
    |m| == 2 && Upper(m[1]) == 'M' && (Upper(m[0]) == 'A' || Upper(m[0]) == 'P')
  }

  function MarkerOf(m: string): Option<Meridiem>
  {
    if IsMarker(m) then (if Upper(m[0]) == 'A' then Some(AM) else Some(PM)) else None
  }

  lemma {:induction false} SkipWhitespaceShift(pre: string, rest: string, q: nat)
    requires q <= |rest|
    ensures SkipWhitespace(pre + rest, |pre| + q) == |pre| + SkipWhitespace(rest, q)
    decreases |rest| - q
  {
    if q < |rest| && IsWhitespace(rest[q]) {
      assert (pre + rest)[|pre| + q] == rest[q];
      SkipWhitespaceShift(pre, rest, q + 1);
    } else if q < |rest| {
      assert (pre + rest)[|pre| + q] == rest[q];
    }
  }

  lemma MarkerAtShift(pre: string, rest: string, q: nat)
    ensures MarkerAt(pre + rest, |pre| + q) == MarkerAt(rest, q)
  {
    if q + 2 <= |rest| {
      assert (pre + rest)[|pre| + q] == rest[q];
      assert (pre + rest)[|pre| + q + 1] == rest[q + 1];
    }
  }

  lemma TwoDigitValue(t: string)
    requires |t| == 2 && AllDigits(t)
    ensures DigitsValue(t) == 10 * DigitValue(t[0]) + DigitValue(t[1])
  {
    assert t[..1][..0] == [];
  }

  /** The pattern at position 0, given what the first characters of `s` are. */
  lemma ClockAtZero(s: string, n: nat, hour: nat, minute: nat)
    requires n == 1 || n == 2
    requires n + 3 <= |s| && s[n] == ':' && IsDigit(s[n + 1]) && IsDigit(s[n + 2])
    requires minute == 10 * DigitValue(s[n + 1]) + DigitValue(s[n + 2])
    requires n == 2 ==> IsDigit(s[0]) && IsDigit(s[1]) && hour == 10 * DigitValue(s[0]) + DigitValue(s[1])
    requires n == 1 ==> IsDigit(s[0]) && hour == DigitValue(s[0])
    ensures FindClock(s) == Some(Clock(hour, minute, MarkerAt(s, SkipWhitespace(s, n + 3))))
  {
    assert ClockAt(s, 0) == Some(Clock(hour, minute, MarkerAt(s, SkipWhitespace(s, n + 3))));
  }

  /**
   * A time text that starts with `H:MM` or `HH:MM` reads that clock, whatever follows;
   * the marker is whatever `(AM|PM)` finds after the whitespace that follows the minutes.
   */
  lemma ClockAtStart(hourText: string, minuteText: string, rest: string)
    requires 1 <= |hourText| <= 2 && AllDigits(hourText)
    requires |minuteText| == 2 && AllDigits(minuteText)
    ensures FindClock(hourText + ":" + minuteText + rest)
         == Some(Clock(DigitsValue(hourText), DigitsValue(minuteText), MarkerAt(rest, SkipWhitespace(rest, 0))))
  {
    var pre := hourText + ":" + minuteText;
    var s := pre + rest;
    var n := |hourText|;
    assert s == hourText + ":" + minuteText + rest;
    assert s[n] == ':' && s[n + 1] == minuteText[0] && s[n + 2] == minuteText[1];
    assert s[0] == hourText[0] && (n == 2 ==> s[1] == hourText[1]);
    TwoDigitValue(minuteText);
    if n == 2 {
      TwoDigitValue(hourText);
    } else {
      assert hourText[..0] == [];
    }
    var q := SkipWhitespace(rest, 0);
    SkipWhitespaceShift(pre, rest, 0);
    MarkerAtShift(pre, rest, q);
    assert MarkerAt(s, SkipWhitespace(s, n + 3)) == MarkerAt(rest, q);
    ClockAtZero(s, n, DigitsValue(hourText), DigitsValue(minuteText));
  }

  /** The exact form `H:MM`, optional whitespace, optional AM/PM in any letter case. */
  lemma ExactClock(hourText: string, minuteText: string, gap: string, marker: string)
    requires 1 <= |hourText| <= 2 && AllDigits(hourText)
    requires |minuteText| == 2 && AllDigits(minuteText)
    requires AllWhitespace(gap)
    requires marker == "" || IsMarker(marker)
    ensures FindClock(hourText + ":" + minuteText + gap + marker)
         == Some(Clock(DigitsValue(hourText), DigitsValue(minuteText), MarkerOf(marker)))
  {
    var rest := gap + marker;
    assert hourText + ":" + minuteText + gap + marker == hourText + ":" + minuteText + rest;
    ClockAtStart(hourText, minuteText, rest);
    SkipGap(gap, marker);
    MarkerAtShift(gap, marker, 0);
  }

  lemma SkipGap(gap: string, marker: string)
    requires AllWhitespace(gap)
    requires marker == "" || IsMarker(marker)
    ensures SkipWhitespace(gap + marker, 0) == |gap|
  {
    var s := gap + marker;
    assert forall k :: 0 <= k < |gap| ==> s[k] == gap[k];
    assert marker != "" ==> s[|gap|] == marker[0] && !IsWhitespace(s[|gap|]);
    var e := SkipWhitespace(s, 0);
    assert forall k :: 0 <= k < e ==> s[0..e][k] == s[k];
  }

  /** Up to two decimal digits, without leading zero (JavaScript `String(n)` for n < 100). */
  function NumberText(n: nat): (s: string)
    requires n < 100
    ensures 1 <= |s| <= 2 && AllDigits(s) && DigitsValue(s) == n
  {
    if n < 10 then [DigitChar(n)]
    else
      var s := [DigitChar(n / 10), DigitChar(n % 10)];
      assert s[..1] == [DigitChar(n / 10)];
      s
  }

  /** Exactly two decimal digits, zero-padded. */
  function TwoDigitText(n: nat): (s: string)
    requires n < 100
    ensures |s| == 2 && AllDigits(s) && DigitsValue(s) == n
  {
    var s := [DigitChar(n / 10), DigitChar(n % 10)];
    assert s[..1] == [DigitChar(n / 10)];
    s
  }

  /** A 24-hour clock reading written the 12-hour way, as the fixture feed writes it: "3:05 PM". */
  function TwelveHourText(hour: nat, minute: nat): string
    requires hour < 24 && minute < 60
  {
    NumberText(if hour % 12 == 0 then 12 else hour % 12) + ":" + TwoDigitText(minute) + " "
      + (if hour < 12 then "AM" else "PM")
  }

  /** A 24-hour clock reading written without a marker: "15:05". */
  function TwentyFourHourText(hour: nat, minute: nat): string
    requires hour < 24 && minute < 60
  {
    NumberText(hour) + ":" + TwoDigitText(minute)
  }

  /** Once a clock is found, the instant is midnight of the date plus the 24-hour reading. */
  lemma InstantOfClock(time: string, date: string, c: Clock)
    requires time != "" && time != "N/A" && FindClock(time) == Some(c) && DateOk(date)
    ensures ParseMatchTime(time, date) == Some(Midnight(date) + 60 * Hour24(c) + c.minute)
  {
  }

  /** The 12-hour text reads back as the 12-hour clock it was written from. */
  lemma TwelveHourClock(hour: nat, minute: nat)
    requires hour < 24 && minute < 60
    ensures FindClock(TwelveHourText(hour, minute))
         == Some(Clock(if hour % 12 == 0 then 12 else hour % 12, minute, Some(if hour < 12 then AM else PM)))
  {
    var h12 := if hour % 12 == 0 then 12 else hour % 12;
    var marker := if hour < 12 then "AM" else "PM";
    var hourText, minuteText := NumberText(h12), TwoDigitText(minute);
    assert TwelveHourText(hour, minute) == hourText + ":" + minuteText + " " + marker;
    assert AllWhitespace(" ");
    assert IsMarker(marker) && MarkerOf(marker) == Some(if hour < 12 then AM else PM);
    ExactClock(hourText, minuteText, " ", marker);
  }

  /** Every minute of the day survives being written in 12-hour form and parsed back. */
  lemma TwelveHourRoundTrip(hour: nat, minute: nat, date: string)
    requires hour < 24 && minute < 60
    requires DateOk(date)
    ensures ParseMatchTime(TwelveHourText(hour, minute), date) == Some(Midnight(date) + 60 * hour + minute)
  {
    var text := TwelveHourText(hour, minute);
    var c := Clock(if hour % 12 == 0 then 12 else hour % 12, minute, Some(if hour < 12 then AM else PM));
    TwelveHourClock(hour, minute);
    assert Hour24(c) == hour;
    assert text != "N/A" by { assert |text| > 3; }
    InstantOfClock(text, date, c);
  }

  /** A clock written with a marker, for any hour and minute `\d{1,2}:\d{2}` reads: "13:00 PM". */
  function MarkedText(hour: nat, minute: nat, period: Meridiem): string
    requires hour < 100 && minute < 100
  {
    NumberText(hour) + ":" + TwoDigitText(minute) + " " + (if period == AM then "AM" else "PM")
  }

  /**
   * No range check follows the pattern: any hour and minute it reads, with a marker, give
   * midnight plus the converted hour and the minutes. "0:30 PM" is 12:30, and "13:00 PM"
   * is hour 25, 1 AM of the next day.
   */
  lemma MarkedClockInstant(hour: nat, minute: nat, period: Meridiem, date: string)
    requires hour < 100 && minute < 100 && DateOk(date)
    ensures var h := if period == PM then (if hour == 12 then 12 else hour + 12) else (if hour == 12 then 0 else hour);
      ParseMatchTime(MarkedText(hour, minute, period), date) == Some(Midnight(date) + 60 * h + minute)
    ensures period == PM && 12 < hour ==> ParseMatchTime(MarkedText(hour, minute, period), date).value >= Midnight(date) + MinutesPerDay
  {
    var text := MarkedText(hour, minute, period);
    var marker := if period == AM then "AM" else "PM";
    var hourText, minuteText := NumberText(hour), TwoDigitText(minute);
    assert text == hourText + ":" + minuteText + " " + marker;
    assert AllWhitespace(" ");
    assert IsMarker(marker) && MarkerOf(marker) == Some(period);
    ExactClock(hourText, minuteText, " ", marker);
    var c := Clock(hour, minute, Some(period));
    assert text != "N/A" by { assert |text| > 3; }
    InstantOfClock(text, date, c);
  }

  /** Every minute of the day survives being written in 24-hour form and parsed back. */
  lemma TwentyFourHourRoundTrip(hour: nat, minute: nat, date: string)
    requires hour < 24 && minute < 60
    requires DateOk(date)
    ensures ParseMatchTime(TwentyFourHourText(hour, minute), date) == Some(Midnight(date) + 60 * hour + minute)
  {
    var hourText, minuteText := NumberText(hour), TwoDigitText(minute);
    var text := TwentyFourHourText(hour, minute);
    assert text == hourText + ":" + minuteText + "" + "";
    assert AllWhitespace("");
    ExactClock(hourText, minuteText, "", "");
    var c := Clock(hour, minute, None);
    assert FindClock(text) == Some(c);
    assert text != "N/A" by { assert text[|text| - 3] == ':'; }
    InstantOfClock(text, date, c);
  }

  /** Text holding no digit at all ("N/A", "TBA", "") never gives an instant, whatever the date. */
  lemma NoDigitsNoInstant(time: string, date: string)
    requires forall k :: 0 <= k < |time| ==> !IsDigit(time[k])
    ensures !ReadsClock(time)
    ensures ParseMatchTime(time, date) == None
  {
    FindClockLeftmost(time, 0);
    forall q | 0 <= q <= |time|
      ensures ClockAt(time, q).None?
    {
      if q < |time| {
        assert !IsDigit(time[q]);
      }
    }
  }
}
