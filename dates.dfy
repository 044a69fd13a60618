/**
 * Calendar dates as the user record stores them: the date of birth is a
 * "YYYY-MM-DD" string (models/user.go:17) read with Go's time.Parse layout
 * "2006-01-02", and the age is derived from it and today's date.
 */
module Dates {
  import opened Wrappers

  datatype Date = Date(year: int, month: int, day: int)

  /** Gregorian leap year, as Go's time package decides it. */
  predicate IsLeap(year: int) {
    year % 4 == 0 && (year % 100 != 0 || year % 400 == 0)
  }

  function DaysIn(month: int, year: int): int {
    if month == 2 then (if IsLeap(year) then 29 else 28)
    else if month == 4 || month == 6 || month == 9 || month == 11 then 30
    else 31
  }

  predicate ValidDate(d: Date) {
    1 <= d.month <= 12 && 1 <= d.day <= DaysIn(d.month, d.year)
  }

  /** A date the clock can report: today's date is always a real calendar day. */
  type CalendarDate = d: Date | ValidDate(d) witness Date(1970, 1, 1)

  /** Days of `year` that lie in the months before `month`. */
  function DaysBefore(month: int, year: int): int
    requires 1 <= month <= 12
  {
    var common := [0, 31, 59, 90, 120, 151, 181, 212, 243, 273, 304, 334][month - 1];
    if IsLeap(year) && month > 2 then common + 1 else common
  }

  /** Go's Time.YearDay: 1 for January 1st, up to 365 or 366. */
  function YearDay(d: Date): (r: int)
    requires ValidDate(d)
    ensures 1 <= r <= if IsLeap(d.year) then 366 else 365
  {
    DaysBefore(d.month, d.year) + d.day
  }

  // ---------------------------------------------------------------------------
  // Parsing and formatting "YYYY-MM-DD"

  predicate IsDigit(c: char) {
    '0' <= c <= '9'
  }

  predicate AllDigits(s: string) {
    forall i | 0 <= i < |s| :: IsDigit(s[i])
  }

  /** The decimal value of a digit string. */
  function Number(s: string): nat
    requires AllDigits(s)
  {
    if s == [] then 0 else Number(s[..|s| - 1]) * 10 + (s[|s| - 1] as int - '0' as int)
  }

  function Pow10(n: nat): nat {
    if n == 0 then 1 else 10 * Pow10(n - 1)
  }

  /** `n` written in decimal with exactly `width` digits, leading zeros included. */
  function Pad(n: nat, width: nat): (s: string)
    ensures |s| == width && AllDigits(s)
  {
    if width == 0 then [] else Pad(n / 10, width - 1) + [('0' as int + n % 10) as char]
  }

  /**
   * time.Parse("2006-01-02", s): exactly four year digits, a dash, two month
   * digits, a dash and two day digits, nothing after; the month must lie in
   * 1..12 and the day in 1..DaysIn(month, year), otherwise parsing fails.
   */
  function ParseDate(s: string): (r: Option<Date>)
    ensures r.Some? ==> ValidDate(r.value) && 0 <= r.value.year < 10000
  {
    if |s| == 10 && AllDigits(s[0..4]) && s[4] == '-' && AllDigits(s[5..7]) && s[7] == '-'
       && AllDigits(s[8..10])
    then
      var d := Date(Number(s[0..4]), Number(s[5..7]), Number(s[8..10]));
      assert Number(s[0..4]) < 10000 by { NumberBound(s[0..4]); }
      if ValidDate(d) then Some(d) else None
    else
      None
  }

  /** The layout "2006-01-02" applied to a date (Go's Time.Format). */
  function FormatDate(d: Date): string
    requires ValidDate(d) && 0 <= d.year < 10000
  {
    Pad(d.year, 4) + "-" + Pad(d.month, 2) + "-" + Pad(d.day, 2)
  }

  lemma {:induction false} NumberBound(s: string)
    requires AllDigits(s)
    ensures Number(s) < Pow10(|s|)
  {
    if s != [] {
      NumberBound(s[..|s| - 1]);
    }
  }

  lemma {:induction false} NumberOfPad(n: nat, width: nat)
    requires n < Pow10(width)
    ensures Number(Pad(n, width)) == n
  {
    if width > 0 {
      NumberOfPad(n / 10, width - 1);
      var s := Pad(n, width);
      assert s[..|s| - 1] == Pad(n / 10, width - 1);
    }
  }

  lemma {:induction false} PadOfNumber(s: string)
    requires AllDigits(s)
    ensures Pad(Number(s), |s|) == s
  {
    if s != [] {
      var init := s[..|s| - 1];
      PadOfNumber(init);
      assert Number(s) / 10 == Number(init);
      assert s == init + [s[|s| - 1]];
    }
  }

  /** Formatting a date and parsing it back gives the date. */
  lemma ParseFormatRoundTrip(d: Date)
    requires ValidDate(d) && 0 <= d.year < 10000
    ensures ParseDate(FormatDate(d)) == Some(d)
  {
    var s := FormatDate(d);
    NumberOfPad(d.year, 4);
    NumberOfPad(d.month, 2);
    NumberOfPad(d.day, 2);
    assert s[0..4] == Pad(d.year, 4);
    assert s[5..7] == Pad(d.month, 2);
    assert s[8..10] == Pad(d.day, 2);
  }

  /** What an accepted string parses to: the numbers its three digit groups spell. */
  lemma ParsedFields(s: string)
    requires ParseDate(s).Some?
    ensures |s| == 10 && s[4] == '-' && s[7] == '-'
    ensures AllDigits(s[0..4]) && AllDigits(s[5..7]) && AllDigits(s[8..10])
    ensures ParseDate(s) == Some(Date(Number(s[0..4]), Number(s[5..7]), Number(s[8..10])))
  {
  }

  /** The parser accepts only the canonical spelling: what it reads, formats back to the input. */
  lemma FormatParseRoundTrip(s: string)
    requires ParseDate(s).Some?
    ensures FormatDate(ParseDate(s).value) == s
  {
    ParsedFields(s);
    PadOfNumber(s[0..4]);
    PadOfNumber(s[5..7]);
    PadOfNumber(s[8..10]);
    assert s == s[0..4] + "-" + s[5..7] + "-" + s[8..10];
  }

  // ---------------------------------------------------------------------------
  // Age

  /**
   * CalculateAge exactly as models/user.go:42-55 computes it: 0 for a date of
   * birth that does not parse; otherwise the difference of the years, less one
   * when today's day of the year comes before the birth's day of the year.
   */
  function CalculateAge(dob: string, today: CalendarDate): (age: int)
    ensures ParseDate(dob).None? ==> age == 0
    ensures ParseDate(dob).Some? ==>
      var years := today.year - ParseDate(dob).value.year;
      age == years || age == years - 1
  {
    match ParseDate(dob)
    case None => 0
    case Some(birth) =>
      var age := today.year - birth.year;
      if YearDay(today) < YearDay(birth) then age - 1 else age
  }

  /** Strict calendar order: earlier year, or same year and earlier month, or same month and earlier day. */
  predicate Earlier(a: Date, b: Date) {
    a.year < b.year || (a.year == b.year && (a.month < b.month || (a.month == b.month && a.day < b.day)))
  }

  /** The date on which someone born on `birth` completes `n` years. */
  function Anniversary(birth: Date, n: int): Date {
    Date(birth.year + n, birth.month, birth.day)
  }

  /**
   * The age in completed years: the year difference, less one when today's
   * (month, day) comes before the birthday's (month, day).
   */
  function CompletedYears(birth: Date, today: Date): int {
    var years := today.year - birth.year;
    if Earlier(Date(0, today.month, today.day), Date(0, birth.month, birth.day)) then years - 1 else years
  }

  /** CompletedYears is the one n whose anniversary has come and whose next has not. */
  lemma CompletedYearsIsAge(birth: Date, today: Date, n: int)
    ensures (!Earlier(today, Anniversary(birth, n)) && Earlier(today, Anniversary(birth, n + 1)))
            <==> n == CompletedYears(birth, today)
  {
  }

  /** The age the record stores: CompletedYears of the parsed date of birth, 0 when it does not parse. */
  function AgeOf(dob: string, today: CalendarDate): (age: int)
    ensures ParseDate(dob).None? ==> age == 0
    ensures ParseDate(dob).Some? ==>
      var birth := ParseDate(dob).value;
      !Earlier(today, Anniversary(birth, age)) && Earlier(today, Anniversary(birth, age + 1))
  {
    match ParseDate(dob)
    case None => 0
    case Some(birth) => CompletedYears(birth, today)
  }

  /** Within one year, YearDay orders days as the calendar does when both years are alike in leap-ness. */
  lemma YearDayOrder(a: Date, b: Date)
    requires ValidDate(a) && ValidDate(b) && IsLeap(a.year) == IsLeap(b.year)
    ensures YearDay(a) < YearDay(b) <==> Earlier(Date(0, a.month, a.day), Date(0, b.month, b.day))
  {
    if a.month < b.month {
      MonthsAdvance(a.month, b.month, a.year, b.year);
    } else if b.month < a.month {
      MonthsAdvance(b.month, a.month, b.year, a.year);
    }
  }

  /** The days of a month and all before it come no later than the days before any later month. */
  lemma MonthsAdvance(m: int, m': int, y: int, y': int)
    requires 1 <= m < m' <= 12 && IsLeap(y) == IsLeap(y')
    ensures DaysBefore(m, y) + DaysIn(m, y) <= DaysBefore(m', y')
  {
  }

  /** When the birth year and the current year are both leap or both common, CalculateAge is right. */
  lemma CalculateAgeAgreesInLikeYears(dob: string, today: CalendarDate)
    requires ParseDate(dob).Some? && IsLeap(ParseDate(dob).value.year) == IsLeap(today.year)
    ensures CalculateAge(dob, today) == AgeOf(dob, today)
  {
    YearDayOrder(today, ParseDate(dob).value);
  }

  /**
   * Born on 1 March 2000 (a leap year, day 61); on 1 March 2001 (day 60) the
   * person turns one, but CalculateAge still says 0.
   */
  lemma CalculateAgeMissesBirthdayAfterLeapYear()
    ensures ParseDate("2000-03-01") == Some(Date(2000, 3, 1))
    ensures CalculateAge("2000-03-01", Date(2001, 3, 1)) == 0
    ensures AgeOf("2000-03-01", Date(2001, 3, 1)) == 1
  {
    ParseFormatRoundTrip(Date(2000, 3, 1));
    assert FormatDate(Date(2000, 3, 1)) == "2000-03-01";
  }
}
