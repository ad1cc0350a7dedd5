/**
 * Archive dates of scripts/archived-agent-notes.ts: `validDate` normalises a date with
 * `Date.UTC` and compares it with what was written, by the calendar of sections 21.4.1 and
 * 21.4.3.4 of ECMA-262; `validateHeader` compares dates as strings.
 */
module ArchiveDates {
  import opened Basics
  import opened Texts
  import opened Decimals

  // ---------------------------------------------------------------------------
  // The calendar of section 21.4.1; days are counted from 1 January 1970
  // ---------------------------------------------------------------------------

  predicate IsLeap(year: int) {
    year % 4 == 0 && (year % 100 != 0 || year % 400 == 0)
  }

  function DaysInYear(year: int): int {
    if IsLeap(year) then 366 else 365
  }

  function DayFromYear(year: int): int {
    365 * (year - 1970) + (year - 1969) / 4 - (year - 1901) / 100 + (year - 1601) / 400
  }

  /** Leap days of the years before. */
  lemma FourthYear(year: int)
    ensures (year - 1968) / 4 - (year - 1969) / 4 == if year % 4 == 0 then 1 else 0
  {
  }

  lemma HundredthYear(year: int)
    ensures (year - 1900) / 100 - (year - 1901) / 100 == if year % 100 == 0 then 1 else 0
  {
  }

  lemma FourHundredthYear(year: int)
    ensures (year - 1600) / 400 - (year - 1601) / 400 == if year % 400 == 0 then 1 else 0
  {
  }

  lemma Multiples(year: int)
    ensures year % 400 == 0 ==> year % 100 == 0
    ensures year % 100 == 0 ==> year % 4 == 0
  {
  }

  lemma YearStep(year: int)
    ensures DayFromYear(year + 1) == DayFromYear(year) + DaysInYear(year)
  {
    FourthYear(year);
    HundredthYear(year);
    FourHundredthYear(year);
    Multiples(year);
  }

  ghost predicate InYear(day: int, year: int) {
    DayFromYear(year) <= day < DayFromYear(year + 1)
  }

  lemma {:induction false} YearsApart(a: int, b: int)
    requires a <= b
    ensures DayFromYear(a) + 365 * (b - a) <= DayFromYear(b)
    decreases b - a
  {
    if a < b {
      YearsApart(a, b - 1);
      YearStep(b - 1);
    }
  }

  lemma YearIsUnique(day: int, a: int, b: int)
    requires InYear(day, a) && InYear(day, b)
    ensures a == b
  {
    if a < b {
      YearsApart(a + 1, b);
    } else if b < a {
      YearsApart(b + 1, a);
    }
  }

  function Distance(day: int, year: int): nat {
    if day < DayFromYear(year) then DayFromYear(year) - day
    else if day >= DayFromYear(year + 1) then day - DayFromYear(year + 1) + 1
    else 0
  }

  /** The largest year that starts on or before the day. */
  function YearFromDay(day: int): (year: int)
    ensures InYear(day, year)
  {
    Search(day, 1970)
  }

  function Search(day: int, year: int): (found: int)
    ensures InYear(day, found)
    decreases Distance(day, year)
  {
    YearStep(year - 1);
    YearStep(year + 1);
    if day < DayFromYear(year) then Search(day, year - 1)
    else if day >= DayFromYear(year + 1) then Search(day, year + 1)
    else year
  }

  /** The first day of month `month` (from zero) within a year; month 12 is the next year's first. */
  function MonthStart(month: int, year: int): int
    requires 0 <= month <= 12
  {
    Cumulative(month, if IsLeap(year) then 1 else 0)
  }

  function Cumulative(month: int, leap: int): int
    requires 0 <= month <= 12
  {
    if month == 0 then 0
    else if month == 1 then 31
    else if month == 2 then 59 + leap
    else if month == 3 then 90 + leap
    else if month == 4 then 120 + leap
    else if month == 5 then 151 + leap
    else if month == 6 then 181 + leap
    else if month == 7 then 212 + leap
    else if month == 8 then 243 + leap
    else if month == 9 then 273 + leap
    else if month == 10 then 304 + leap
    else if month == 11 then 334 + leap
    else 365 + leap
  }

  function MonthWithin(day: int, year: int, month: int): (found: int)
    requires 0 <= month < 12 && MonthStart(month, year) <= day < MonthStart(12, year)
    ensures month <= found < 12 && MonthStart(found, year) <= day < MonthStart(found + 1, year)
    decreases 12 - month
  {
    if day < MonthStart(month + 1, year) then month else MonthWithin(day, year, month + 1)
  }

  function MonthFromDay(day: int): (month: int)
    ensures 0 <= month < 12
  {
    var year := YearFromDay(day);
    YearStep(year);
    MonthWithin(day - DayFromYear(year), year, 0)
  }

  function DateFromDay(day: int): int {
    day - DayFromYear(YearFromDay(day)) - MonthStart(MonthFromDay(day), YearFromDay(day)) + 1
  }

  /** The day of the first of a month (from zero). */
  function FirstOfMonth(year: int, month: int): int
    requires 0 <= month < 12
  {
    DayFromYear(year) + MonthStart(month, year)
  }

  /** MakeDay: a month outside the year is carried into it, a date outside the month is counted on. */
  function MakeDay(year: int, month: int, date: int): int {
    FirstOfMonth(year + month / 12, month % 12) + date - 1
  }

  /** Date.UTC at midnight, in days: two-digit years are of the twentieth century. */
  function DateUtc(year: int, month: int, date: int): int {
    MakeDay(if 0 <= year <= 99 then 1900 + year else year, month, date)
  }

  // ---------------------------------------------------------------------------
  // Real dates
  // ---------------------------------------------------------------------------

  datatype Date = Date(year: nat, month: nat, day: nat)

  function DaysInMonth(year: int, month: int): int {
    if month == 2 then (if IsLeap(year) then 29 else 28)
    else if month in {4, 6, 9, 11} then 30
    else 31
  }

  predicate IsReal(d: Date) {
    1 <= d.month <= 12 && 1 <= d.day <= DaysInMonth(d.year, d.month)
  }

  /** The day on which a date falls, without the two-digit rule. */
  function DayOf(d: Date): int {
    MakeDay(d.year, d.month - 1, d.day)
  }

  lemma MonthLength(year: int, month: int)
    requires 0 <= month < 12
    ensures MonthStart(month + 1, year) == MonthStart(month, year) + DaysInMonth(year, month + 1)
  {
  }

  lemma {:induction false} MonthsApart(year: int, a: int, b: int)
    requires 0 <= a <= b <= 12
    ensures MonthStart(a, year) <= MonthStart(b, year)
    decreases b - a
  {
    if a < b {
      MonthLength(year, b - 1);
      MonthsApart(year, a, b - 1);
    }
  }

  /** A day of a month has that year, month and date. */
  lemma FieldsOfDay(year: int, month: int, date: int)
    requires 0 <= month < 12 && 1 <= date <= DaysInMonth(year, month + 1)
    ensures var day := FirstOfMonth(year, month) + date - 1;
      YearFromDay(day) == year && MonthFromDay(day) == month && DateFromDay(day) == date
  {
    var day := FirstOfMonth(year, month) + date - 1;
    InItsYear(year, month, date);
    YearIsUnique(day, year, YearFromDay(day));
    MonthLength(year, month);
    MonthIsUnique(year, day - DayFromYear(year), month, MonthFromDay(day));
  }

  lemma InItsYear(year: int, month: int, date: int)
    requires 0 <= month < 12 && 1 <= date <= DaysInMonth(year, month + 1)
    ensures InYear(FirstOfMonth(year, month) + date - 1, year)
  {
    YearStep(year);
    MonthLength(year, month);
    MonthsApart(year, month + 1, 12);
    MonthsApart(year, 0, month);
  }

  lemma MonthIsUnique(year: int, day: int, a: int, b: int)
    requires 0 <= a < 12 && 0 <= b < 12
    requires MonthStart(a, year) <= day < MonthStart(a + 1, year)
      && MonthStart(b, year) <= day < MonthStart(b + 1, year)
    ensures a == b
  {
    if a < b {
      MonthsApart(year, a + 1, b);
    } else if b < a {
      MonthsApart(year, b + 1, a);
    }
  }

  /** Every day's fields are a real date, and that date falls on it. */
  lemma FieldsAreReal(day: int)
    ensures 1 <= DateFromDay(day) <= DaysInMonth(YearFromDay(day), MonthFromDay(day) + 1)
    ensures FirstOfMonth(YearFromDay(day), MonthFromDay(day)) + DateFromDay(day) - 1 == day
  {
    MonthLength(YearFromDay(day), MonthFromDay(day));
  }

  /** The day's fields are the date's. */
  predicate Agrees(day: int, d: Date) {
    YearFromDay(day) == d.year && MonthFromDay(day) == d.month - 1 && DateFromDay(day) == d.day
  }

  /** `validDate` behind the pattern: normalise and compare. */
  predicate Survives(d: Date) {
    Agrees(DateUtc(d.year, d.month - 1, d.day), d)
  }

  /** Normalising and comparing finds exactly the real dates from the year 100 on. */
  lemma SurvivesExactly(d: Date)
    requires d.year <= 9999 && d.month <= 99 && d.day <= 99
    ensures Survives(d) <==> d.year >= 100 && IsReal(d)
  {
    if d.year < 100 {
      TwoDigitYears(d);
    } else if IsReal(d) {
      RealSurvives(d);
    } else if Survives(d) {
      OnlyRealAgrees(DateUtc(d.year, d.month - 1, d.day), d);
    }
  }

  lemma RealAgrees(d: Date)
    requires IsReal(d)
    ensures Agrees(DayOf(d), d)
  {
    PlainDay(d);
    FieldsOfDay(d.year, d.month - 1, d.day);
  }

  lemma LateYearsArePlain(d: Date)
    requires d.year >= 100
    ensures DateUtc(d.year, d.month - 1, d.day) == DayOf(d)
  {
  }

  lemma RealSurvives(d: Date)
    requires d.year >= 100 && IsReal(d)
    ensures Survives(d)
  {
    LateYearsArePlain(d);
    RealAgrees(d);
  }

  lemma OnlyRealAgrees(day: int, d: Date)
    requires Agrees(day, d)
    ensures IsReal(d)
  {
    FieldsAreReal(day);
  }

  lemma PlainDay(d: Date)
    requires 1 <= d.month <= 12
    ensures DayOf(d) == FirstOfMonth(d.year, d.month - 1) + d.day - 1
  {
    assert (d.month - 1) / 12 == 0 && (d.month - 1) % 12 == d.month - 1;
  }

  lemma TwoDigitYears(d: Date)
    requires d.year <= 99 && d.month <= 99 && d.day <= 99
    ensures !Survives(d)
  {
    LateDay(d.year, d.month - 1, d.day);
    LateYear(DateUtc(d.year, d.month - 1, d.day), 1898);
  }

  lemma LateDay(year: int, month: int, date: int)
    requires 0 <= year <= 99 && month >= -1 && date >= 0
    ensures DateUtc(year, month, date) >= DayFromYear(1898)
  {
    var carried := 1900 + year + month / 12;
    YearsApart(1899, carried);
    MonthsApart(carried, 0, month % 12);
  }

  lemma LateYear(day: int, year: int)
    requires day >= DayFromYear(year)
    ensures YearFromDay(day) >= year
  {
    if YearFromDay(day) < year { YearsApart(YearFromDay(day) + 1, year); }
  }

  /** Time values stay within the range of section 21.4.1.1, so TimeClip never makes them NaN. */
  lemma TimeIsInRange(d: Date)
    requires d.year <= 9999 && d.month <= 99 && d.day <= 99
    ensures -100_000_000 <= DateUtc(d.year, d.month - 1, d.day) <= 100_000_000
  {
    var year := (if d.year <= 99 then 1900 + d.year else d.year) + (d.month - 1) / 12;
    if year < 1970 { YearsApart(year, 1970); } else { YearsApart(1970, year); }
    YearBounds(year);
  }

  lemma YearBounds(year: int)
    requires -10_000 <= year <= 20_000
    ensures -10_000_000 <= DayFromYear(year) <= 10_000_000
  {
  }

  // ---------------------------------------------------------------------------
  // Written dates
  // ---------------------------------------------------------------------------

  /** Does the text match `^\d{4}-\d{2}-\d{2}$`? */
  predicate IsDateText(s: string) {
    && |s| == 10 && s[4] == '-' && s[7] == '-'
    && Digits(s[..4]) && Digits(s[5..7]) && Digits(s[8..])
  }

  function Written(s: string): Date
    requires IsDateText(s)
  {
    Date(Number(s[..4]), Number(s[5..7]), Number(s[8..]))
  }

  /** `validDate`. */
  predicate ValidDate(s: string) {
    IsDateText(s) && Survives(Written(s))
  }

  lemma WrittenBound(s: string)
    requires IsDateText(s)
    ensures Written(s).year <= 9999 && Written(s).month <= 99 && Written(s).day <= 99
  {
    NumberBound(s[..4]);
    NumberBound(s[5..7]);
    NumberBound(s[8..]);
    assert Power(2) == 100 && Power(4) == 10_000 by { assert Power(1) == 10 && Power(3) == 1000; }
  }

  /** A text is accepted exactly when it is a date in the pattern, real, and not before the year 100. */
  lemma ValidDateExactly(s: string)
    ensures ValidDate(s) <==> IsDateText(s) && Written(s).year >= 100 && IsReal(Written(s))
  {
    if IsDateText(s) {
      WrittenBound(s);
      SurvivesExactly(Written(s));
    }
  }

  // ---------------------------------------------------------------------------
  // Comparing dates as strings
  // ---------------------------------------------------------------------------

  /** JavaScript's `<` on strings. */
  predicate StringLess(s: string, t: string) {
    t != "" && (s == "" || s[0] < t[0] || (s[0] == t[0] && StringLess(s[1..], t[1..])))
  }

  lemma {:induction false} LessAppend(a: string, b: string, c: string, d: string)
    requires |a| == |c|
    ensures StringLess(a + b, c + d) <==> StringLess(a, c) || (a == c && StringLess(b, d))
  {
    if a == "" {
      assert a + b == b && c + d == d;
    } else {
      assert (a + b)[1..] == a[1..] + b && (c + d)[1..] == c[1..] + d;
      LessAppend(a[1..], b, c[1..], d);
      assert a == [a[0]] + a[1..] && c == [c[0]] + c[1..];
    }
  }

  /** Texts of digits of one length compare as their numbers do. */
  lemma {:induction false} DigitsCompare(s: string, t: string)
    requires |s| == |t| && Digits(s) && Digits(t)
    ensures StringLess(s, t) <==> Number(s) < Number(t)
    ensures s == t <==> Number(s) == Number(t)
  {
    if s != "" {
      var n := |s| - 1;
      assert s == s[..n] + [s[n]] && t == t[..n] + [t[n]];
      DigitsCompare(s[..n], t[..n]);
      LessAppend(s[..n], [s[n]], t[..n], [t[n]]);
      LastDigit(s[n], t[n]);
    }
  }

  lemma LastDigit(c: char, d: char)
    requires IsDigit(c) && IsDigit(d)
    ensures StringLess([c], [d]) <==> DigitValue(c) < DigitValue(d)
    ensures c == d <==> DigitValue(c) == DigitValue(d)
  {
  }

  /** Year first, then month, then day. */
  predicate Precedes(a: Date, b: Date) {
    a.year < b.year || (a.year == b.year && (a.month < b.month || (a.month == b.month && a.day < b.day)))
  }

  lemma TextPrecedes(s: string, t: string)
    requires IsDateText(s) && IsDateText(t)
    ensures StringLess(s, t) <==> Precedes(Written(s), Written(t))
  {
    Parts(s);
    Parts(t);
    LessAppend(s[..4], "-" + (s[5..7] + ("-" + s[8..])), t[..4], "-" + (t[5..7] + ("-" + t[8..])));
    LessAppend("-", s[5..7] + ("-" + s[8..]), "-", t[5..7] + ("-" + t[8..]));
    LessAppend(s[5..7], "-" + s[8..], t[5..7], "-" + t[8..]);
    LessAppend("-", s[8..], "-", t[8..]);
    DigitsCompare(s[..4], t[..4]);
    DigitsCompare(s[5..7], t[5..7]);
    DigitsCompare(s[8..], t[8..]);
  }

  lemma Parts(s: string)
    requires IsDateText(s)
    ensures s == s[..4] + ("-" + (s[5..7] + ("-" + s[8..])))
  {
  }

  /** On real dates the order of the fields is the order of the days. */
  lemma FieldsOrderDays(a: Date, b: Date)
    requires IsReal(a) && IsReal(b)
    ensures Precedes(a, b) <==> DayOf(a) < DayOf(b)
  {
    if Precedes(a, b) {
      DaysFollow(a, b);
    } else if Precedes(b, a) {
      DaysFollow(b, a);
    }
  }

  lemma DaysFollow(a: Date, b: Date)
    requires IsReal(a) && IsReal(b) && Precedes(a, b)
    ensures DayOf(a) < DayOf(b)
  {
    if a.year < b.year {
      RealInItsYear(a);
      RealInItsYear(b);
      LaterYear(DayOf(a), a.year, DayOf(b), b.year);
    } else {
      PlainDay(a);
      PlainDay(b);
      LaterMonth(a.year, a.month - 1, a.day, b.month - 1, b.day);
    }
  }

  lemma RealInItsYear(d: Date)
    requires IsReal(d)
    ensures InYear(DayOf(d), d.year)
  {
    PlainDay(d);
    InItsYear(d.year, d.month - 1, d.day);
  }

  lemma LaterYear(x: int, a: int, y: int, b: int)
    requires InYear(x, a) && InYear(y, b) && a < b
    ensures x < y
  {
    YearsApart(a + 1, b);
  }

  lemma LaterMonth(year: int, m: int, date: int, n: int, other: int)
    requires 0 <= m <= n < 12 && 1 <= date <= DaysInMonth(year, m + 1) && other >= 1
    requires m < n || date < other
    ensures FirstOfMonth(year, m) + date - 1 < FirstOfMonth(year, n) + other - 1
  {
    if m < n {
      MonthLength(year, m);
      MonthsApart(year, m + 1, n);
    }
  }

  // ---------------------------------------------------------------------------
  // Note dates that are not real
  // ---------------------------------------------------------------------------

  /** The day of the first real date that does not precede the written one. */
  function CeilDay(n: Date): int {
    if n.month == 0 then DayFromYear(n.year)
    else if n.month > 12 then DayFromYear(n.year + 1)
    else
      var first, length := FirstOfMonth(n.year, n.month - 1), DaysInMonth(n.year, n.month);
      first + if n.day == 0 then 0 else if n.day > length then length else n.day - 1
  }

  lemma YearCut(d: Date, year: int)
    requires IsReal(d)
    ensures d.year < year <==> DayOf(d) < DayFromYear(year)
  {
    RealInItsYear(d);
    if d.year < year { YearsApart(d.year + 1, year); } else { YearsApart(year, d.year); }
  }

  lemma MonthCut(d: Date, n: Date)
    requires IsReal(d) && 1 <= n.month <= 12
    ensures Precedes(d, n) <==> DayOf(d) < CeilDay(n)
  {
    var length := DaysInMonth(n.year, n.month);
    if n.day == 0 {
      var first := Date(n.year, n.month, 1);
      PlainDay(first);
      FieldsOrderDays(d, first);
    } else if n.day > length {
      var last := Date(n.year, n.month, length);
      PlainDay(last);
      FieldsOrderDays(last, d);
      SameDaySameDate(last, d);
    } else {
      PlainDay(n);
      FieldsOrderDays(d, n);
    }
  }

  lemma SameDaySameDate(a: Date, b: Date)
    requires IsReal(a) && IsReal(b)
    ensures DayOf(a) == DayOf(b) ==> a == b
  {
    FieldsOrderDays(a, b);
    FieldsOrderDays(b, a);
  }

  /** Preceding a written date by its fields is falling before its first real date. */
  lemma CutIsCeil(d: Date, n: Date)
    requires IsReal(d)
    ensures Precedes(d, n) <==> DayOf(d) < CeilDay(n)
  {
    if n.month == 0 {
      YearCut(d, n.year);
    } else if n.month > 12 {
      YearCut(d, n.year + 1);
    } else {
      MonthCut(d, n);
    }
  }

  /** The written date names the day right behind a month's last one. */
  predicate BehindMonth(n: Date) {
    || (1 <= n.month <= 12 && n.day == DaysInMonth(n.year, n.month) + 1)
    || (n.month == 13 && n.day == 1)
    || (n.month == 0 && n.day == 32)
  }

  lemma FarMonth(n: Date)
    requires n.month >= 14
    ensures DayOf(n) > DayFromYear(n.year + 1)
  {
    var year, month := n.year + (n.month - 1) / 12, (n.month - 1) % 12;
    YearsApart(n.year + 1, year);
    if year == n.year + 1 {
      MonthsApart(year, 1, month);
    } else {
      MonthsApart(year, 0, month);
    }
  }

  lemma EarlyMonth(n: Date)
    requires n.month == 0 || n.month == 13
    ensures n.month == 0 ==> DayOf(n) == DayFromYear(n.year) - 32 + n.day
    ensures n.month == 13 ==> DayOf(n) == DayFromYear(n.year + 1) + n.day - 1
  {
    if n.month == 0 {
      assert (n.month - 1) / 12 == -1 && (n.month - 1) % 12 == 11;
      YearStep(n.year - 1);
      MonthLength(n.year - 1, 11);
    } else {
      assert (n.month - 1) / 12 == 1 && (n.month - 1) % 12 == 0;
    }
  }

  /** Normalising a written date leads to its first real date only when it is real or right behind a month. */
  lemma CeilDayExactly(n: Date)
    ensures CeilDay(n) == DayOf(n) <==> IsReal(n) || BehindMonth(n)
  {
    if n.month >= 14 {
      FarMonth(n);
    } else if n.month == 0 || n.month == 13 {
      EarlyMonth(n);
    } else {
      PlainDay(n);
    }
  }

  const FIRST_ACCEPTED := Date(100, 1, 1)
  const LAST_ACCEPTED := Date(9999, 12, 31)

  /** The dates that `validDate` accepts. */
  predicate IsAccepted(d: Date) {
    100 <= d.year <= 9999 && IsReal(d)
  }

  /** Both by its fields and by its day the written date lies before or behind all accepted ones. */
  predicate IsOutside(n: Date) {
    || (!Precedes(FIRST_ACCEPTED, n) && DayOf(n) <= DayOf(FIRST_ACCEPTED))
    || (Precedes(LAST_ACCEPTED, n) && DayOf(n) > DayOf(LAST_ACCEPTED))
  }

  predicate IsComparable(n: Date) {
    IsReal(n) || BehindMonth(n) || IsOutside(n)
  }

  lemma AcceptedRange(d: Date)
    requires IsReal(d)
    ensures IsAccepted(d) <==> DayOf(FIRST_ACCEPTED) <= DayOf(d) <= DayOf(LAST_ACCEPTED)
  {
    FieldsOrderDays(d, FIRST_ACCEPTED);
    FieldsOrderDays(LAST_ACCEPTED, d);
  }

  /** Every day of the accepted years has its date. */
  lemma DateOfDay(day: int) returns (d: Date)
    requires DayOf(FIRST_ACCEPTED) <= day <= DayOf(LAST_ACCEPTED)
    ensures IsAccepted(d) && DayOf(d) == day
  {
    PlainDay(FIRST_ACCEPTED);
    LateYear(day, 100);
    FieldsAreReal(day);
    d := Date(YearFromDay(day), MonthFromDay(day) + 1, DateFromDay(day));
    PlainDay(d);
    AcceptedRange(d);
  }

  /** Comparing accepted dates with this one by fields is comparing days. */
  ghost predicate ComparesByDay(n: Date) {
    forall d | IsAccepted(d) :: Precedes(d, n) <==> DayOf(d) < DayOf(n)
  }

  lemma ComparableComparesByDay(n: Date)
    requires IsComparable(n)
    ensures ComparesByDay(n)
  {
    CeilDayExactly(n);
    CutIsCeil(FIRST_ACCEPTED, n);
    CutIsCeil(LAST_ACCEPTED, n);
    forall d | IsAccepted(d) ensures Precedes(d, n) <==> DayOf(d) < DayOf(n) {
      CutIsCeil(d, n);
      AcceptedRange(d);
    }
  }

  /** Otherwise some accepted date lies between the written one's fields and its day. */
  lemma SomeDateBetween(n: Date)
    requires !IsComparable(n)
    ensures !ComparesByDay(n)
  {
    var first, last, ceil, day := DayOf(FIRST_ACCEPTED), DayOf(LAST_ACCEPTED), CeilDay(n), DayOf(n);
    CeilDayExactly(n);
    CutIsCeil(FIRST_ACCEPTED, n);
    CutIsCeil(LAST_ACCEPTED, n);
    var lower, upper := if ceil < day then ceil else day, if ceil < day then day else ceil;
    var between := if lower < first then first else lower;
    FieldsOrderDays(FIRST_ACCEPTED, LAST_ACCEPTED);
    assert lower < upper && first < upper && lower <= last;
    var d := DateOfDay(between);
    CutIsCeil(d, n);
    assert lower <= between < upper;
  }

  /** An accepted date as it is written. */
  function Formatted(d: Date): string {
    Padded(d.year, 4) + ("-" + (Padded(d.month, 2) + ("-" + Padded(d.day, 2))))
  }

  lemma FormattedReads(d: Date)
    requires IsAccepted(d)
    ensures IsDateText(Formatted(d)) && Written(Formatted(d)) == d && ValidDate(Formatted(d))
  {
    assert Power(1) == 10 && Power(2) == 100 && Power(3) == 1000 && Power(4) == 10_000;
    NumberOfPadded(d.year, 4);
    NumberOfPadded(d.month, 2);
    NumberOfPadded(d.day, 2);
    var s := Formatted(d);
    assert s[..4] == Padded(d.year, 4) && s[5..7] == Padded(d.month, 2) && s[8..] == Padded(d.day, 2);
    ValidDateExactly(s);
  }

  /** The string comparison with a note's date is chronological for all accepted archive dates exactly
      when the note's date is real, right behind a month's end, or outside the accepted years. */
  lemma NoteOrderExactly(note: string)
    requires IsDateText(note)
    ensures (forall s | ValidDate(s) :: StringLess(s, note) <==> DayOf(Written(s)) < DayOf(Written(note)))
      <==> IsComparable(Written(note))
  {
    var n := Written(note);
    if IsComparable(n) {
      ComparableComparesByDay(n);
      forall s | ValidDate(s) ensures StringLess(s, note) <==> DayOf(Written(s)) < DayOf(n) {
        ValidDateExactly(s);
        WrittenBound(s);
        TextPrecedes(s, note);
      }
    } else {
      SomeDateBetween(n);
      var d :| IsAccepted(d) && !(Precedes(d, n) <==> DayOf(d) < DayOf(n));
      FormattedReads(d);
      TextPrecedes(Formatted(d), note);
    }
  }

  /** The date written with these digits. */
  lemma WrittenDigits(s: string, y: string, m: string, d: string)
    requires |y| == 4 && |m| == 2 && |d| == 2 && Digits(y) && Digits(m) && Digits(d)
    requires s == y + "-" + m + "-" + d
    ensures IsDateText(s) && Written(s) == Date(Number(y), Number(m), Number(d))
  {
    assert s[..4] == y && s[5..7] == m && s[8..] == d;
  }

  lemma NumberEndsIn(s: string, c: char)
    requires s != "" && s[|s| - 1] == c
    ensures Number(s) == 10 * Number(s[..|s| - 1]) + DigitValue(c)
  {
  }

  lemma TwoDigits(s: string, a: char, b: char)
    requires s == [a, b] && IsDigit(a) && IsDigit(b)
    ensures Digits(s) && Number(s) == 10 * DigitValue(a) + DigitValue(b)
  {
    NumberEndsIn(s, b);
    assert s[..1] == [a];
    NumberEndsIn([a], a);
  }

  lemma Year2024()
    ensures Digits("2024") && Number("2024") == 2024
  {
    TwoDigits("20", '2', '0');
    NumberEndsIn("2024", '4');
    assert "2024"[..3] == "202";
    NumberEndsIn("202", '2');
    assert "202"[..2] == "20";
  }

  lemma SpringTexts()
    ensures IsDateText("2024-03-01") && Written("2024-03-01") == Date(2024, 3, 1)
    ensures IsDateText("2024-02-31") && Written("2024-02-31") == Date(2024, 2, 31)
  {
    Year2024();
    TwoDigits("03", '0', '3');
    TwoDigits("01", '0', '1');
    TwoDigits("02", '0', '2');
    TwoDigits("31", '3', '1');
    assert "2024-03-01" == "2024" + "-" + "03" + "-" + "01";
    assert "2024-02-31" == "2024" + "-" + "02" + "-" + "31";
    WrittenDigits("2024-03-01", "2024", "03", "01");
    WrittenDigits("2024-02-31", "2024", "02", "31");
  }

  /** A note of 31 February, which is 2 March, is not predated by an archive date of 1 March. */
  lemma UnrealDatesCompareByFields()
    ensures var archived, note := "2024-03-01", "2024-02-31";
      && ValidDate(archived) && IsDateText(note) && !IsComparable(Written(note))
      && !StringLess(archived, note) && DayOf(Written(archived)) < DayOf(Written(note))
  {
    SpringTexts();
    SpringIsReal();
    TextPrecedes("2024-03-01", "2024-02-31");
    LateFebruaryIsWithin(Date(2024, 2, 31));
    LateFebruaryIsLater();
  }

  lemma SpringIsReal()
    ensures Survives(Date(2024, 3, 1))
  {
    SurvivesExactly(Date(2024, 3, 1));
  }

  lemma LateFebruaryIsLater()
    ensures DayOf(Date(2024, 3, 1)) < DayOf(Date(2024, 2, 31))
  {
    PlainDay(Date(2024, 3, 1));
    PlainDay(Date(2024, 2, 31));
  }

  lemma LateFebruaryIsWithin(n: Date)
    requires n == Date(2024, 2, 31)
    ensures !IsComparable(n)
  {
    PlainDay(n);
    PlainDay(FIRST_ACCEPTED);
    PlainDay(LAST_ACCEPTED);
    assert !BehindMonth(n) && !IsReal(n);
    FieldsOrderDays(FIRST_ACCEPTED, Date(2024, 2, 1));
    FieldsOrderDays(Date(2024, 3, 1), LAST_ACCEPTED);
    PlainDay(Date(2024, 2, 1));
    PlainDay(Date(2024, 3, 1));
  }

  // ---------------------------------------------------------------------------
  // Headers
  // ---------------------------------------------------------------------------

  datatype HeaderError =
    | BadTitle
    | NoBlankBehindTitle
    | BadStatus
    | BadArchiveLine
    | PredatesNote
    | NoBlankBehindDate
    | BadSwitcher

  function Line(lines: seq<string>, k: nat): Option<string> {
    if k < |lines| then Some(lines[k]) else None
  }

  predicate IsTitle(line: string) {
    StartsWith(line, "# Agent Note: ") && |line| > 14 && !IsSpace(line[14])
  }

  /** The date behind `Archived: `, when the line is that and a date in the pattern. */
  function ArchivedDate(line: string): Option<string> {
    if StartsWith(line, "Archived: ") && IsDateText(line[10..]) then Some(line[10..]) else None
  }

  function Switcher(base: string, chinese: bool): string {
    if chinese then "[English](" + base + ".md) | \U{4E2D}\U{6587}"
    else "English | [\U{4E2D}\U{6587}](" + base + ".zh.md)"
  }

  /** A line with a date that is real, from the year 100 on and not before the note's. */
  predicate GoodArchiveLine(line: string, noteDate: string)
    requires IsDateText(noteDate)
  {
    match ArchivedDate(line)
    case None => false
    case Some(text) =>
      var d := Written(text);
      d.year >= 100 && IsReal(d) && !Precedes(d, Written(noteDate))
  }

  /** A line with such a date that is before the note's. */
  predicate Predates(line: string, noteDate: string)
    requires IsDateText(noteDate)
  {
    match ArchivedDate(line)
    case None => false
    case Some(text) =>
      var d := Written(text);
      d.year >= 100 && IsReal(d) && Precedes(d, Written(noteDate))
  }

  method CheckArchiveLine(line: Option<string>, noteDate: string) returns (error: Option<HeaderError>)
    requires IsDateText(noteDate)
    ensures error.None? <==> line.Some? && GoodArchiveLine(line.value, noteDate)
    ensures error == Some(PredatesNote) <==> line.Some? && Predates(line.value, noteDate)
    ensures error in {None, Some(BadArchiveLine), Some(PredatesNote)}
  {
    var archived := if line.Some? then ArchivedDate(line.value) else None;
    if archived.None? { return Some(BadArchiveLine); }
    ValidDateExactly(archived.value);
    TextPrecedes(archived.value, noteDate);
    if !ValidDate(archived.value) { return Some(BadArchiveLine); }
    if StringLess(archived.value, noteDate) { return Some(PredatesNote); }
    return None;
  }

  predicate GoodHeader(lines: seq<string>, base: string, chinese: bool)
    requires |base| >= 10 && IsDateText(base[..10])
  {
    && Line(lines, 0).Some? && IsTitle(lines[0])
    && Line(lines, 1) == Some("")
    && Line(lines, 2) == Some("Status: implemented")
    && Line(lines, 3).Some? && GoodArchiveLine(lines[3], base[..10])
    && Line(lines, 4) == Some("")
    && Line(lines, 5) == Some(Switcher(base, chinese))
  }

  /** When a complaint is made. */
  predicate Complains(lines: seq<string>, base: string, chinese: bool, error: HeaderError)
    requires |base| >= 10 && IsDateText(base[..10])
  {
    match error
    case BadTitle => !(Line(lines, 0).Some? && IsTitle(lines[0]))
    case NoBlankBehindTitle => Line(lines, 1) != Some("")
    case BadStatus => Line(lines, 2) != Some("Status: implemented")
    case BadArchiveLine => Line(lines, 3).None?
      || !(GoodArchiveLine(lines[3], base[..10]) || Predates(lines[3], base[..10]))
    case PredatesNote => Line(lines, 3).Some? && Predates(lines[3], base[..10])
    case NoBlankBehindDate => Line(lines, 4) != Some("")
    case BadSwitcher => Line(lines, 5) != Some(Switcher(base, chinese))
  }

  /** The line that a complaint is about. */
  function LineOf(error: HeaderError): nat {
    match error
    case BadTitle => 1
    case NoBlankBehindTitle => 2
    case BadStatus => 3
    case BadArchiveLine => 4
    case PredatesNote => 4
    case NoBlankBehindDate => 5
    case BadSwitcher => 6
  }

  /** Exactly the complaints about the first `k` lines, in order. */
  ghost predicate CheckedTo(lines: seq<string>, base: string, chinese: bool, errors: seq<HeaderError>, k: nat)
    requires |base| >= 10 && IsDateText(base[..10])
  {
    && (forall error :: error in errors <==> LineOf(error) <= k && Complains(lines, base, chinese, error))
    && forall i, j | 0 <= i < j < |errors| :: LineOf(errors[i]) < LineOf(errors[j])
  }

  function Found(bad: bool, error: HeaderError): Option<HeaderError> {
    if bad then Some(error) else None
  }

  /** `errors.push(...)`, when there is something to push. */
  function With(errors: seq<HeaderError>, found: Option<HeaderError>): seq<HeaderError> {
    if found.Some? then errors + [found.value] else errors
  }

  /** What is to be said about line `k`. */
  ghost predicate Concerns(lines: seq<string>, base: string, chinese: bool, k: nat, found: Option<HeaderError>)
    requires |base| >= 10 && IsDateText(base[..10])
  {
    && (forall error | LineOf(error) == k :: Complains(lines, base, chinese, error) <==> found == Some(error))
    && (found.Some? ==> LineOf(found.value) == k)
  }

  ghost predicate CanCheck(lines: seq<string>, base: string, chinese: bool, errors: seq<HeaderError>, k: nat,
                           found: Option<HeaderError>)
    requires |base| >= 10 && IsDateText(base[..10]) && k > 0
  {
    CheckedTo(lines, base, chinese, errors, k - 1) && Concerns(lines, base, chinese, k, found)
  }

  lemma PlainLines(lines: seq<string>, base: string, chinese: bool)
    requires |base| >= 10 && IsDateText(base[..10])
    ensures Concerns(lines, base, chinese, 1, Found(Line(lines, 0).None? || !IsTitle(Line(lines, 0).value), BadTitle))
    ensures Concerns(lines, base, chinese, 2, Found(Line(lines, 1) != Some(""), NoBlankBehindTitle))
    ensures Concerns(lines, base, chinese, 3, Found(Line(lines, 2) != Some("Status: implemented"), BadStatus))
    ensures Concerns(lines, base, chinese, 5, Found(Line(lines, 4) != Some(""), NoBlankBehindDate))
    ensures Concerns(lines, base, chinese, 6, Found(Line(lines, 5) != Some(Switcher(base, chinese)), BadSwitcher))
  {
  }

  lemma ArchiveLine(lines: seq<string>, base: string, chinese: bool, found: Option<HeaderError>)
    requires |base| >= 10 && IsDateText(base[..10]) && found in {None, Some(BadArchiveLine), Some(PredatesNote)}
    requires found.None? <==> Line(lines, 3).Some? && GoodArchiveLine(lines[3], base[..10])
    requires found == Some(PredatesNote) <==> Line(lines, 3).Some? && Predates(lines[3], base[..10])
    ensures Concerns(lines, base, chinese, 4, found)
  {
  }

  lemma OneLineMore(lines: seq<string>, base: string, chinese: bool, errors: seq<HeaderError>, k: nat,
                    found: Option<HeaderError>)
    requires |base| >= 10 && IsDateText(base[..10]) && k > 0
    requires CanCheck(lines, base, chinese, errors, k, found)
    ensures CheckedTo(lines, base, chinese, With(errors, found), k)
  {
    forall i | 0 <= i < |errors| ensures LineOf(errors[i]) < k {
      assert errors[i] in errors;
    }
  }

  function Front(lines: seq<string>): seq<HeaderError> {
    With(With(With([], Found(Line(lines, 0).None? || !IsTitle(Line(lines, 0).value), BadTitle)),
              Found(Line(lines, 1) != Some(""), NoBlankBehindTitle)),
         Found(Line(lines, 2) != Some("Status: implemented"), BadStatus))
  }

  /** All complaints, given what the archive line deserves. */
  function Complaints(lines: seq<string>, base: string, chinese: bool, archive: Option<HeaderError>): seq<HeaderError> {
    With(With(With(Front(lines), archive), Found(Line(lines, 4) != Some(""), NoBlankBehindDate)),
         Found(Line(lines, 5) != Some(Switcher(base, chinese)), BadSwitcher))
  }

  lemma FrontExactly(lines: seq<string>, base: string, chinese: bool)
    requires |base| >= 10 && IsDateText(base[..10])
    ensures CheckedTo(lines, base, chinese, Front(lines), 3)
  {
    var first := Found(Line(lines, 0).None? || !IsTitle(Line(lines, 0).value), BadTitle);
    var second := Found(Line(lines, 1) != Some(""), NoBlankBehindTitle);
    var third := Found(Line(lines, 2) != Some("Status: implemented"), BadStatus);
    PlainLines(lines, base, chinese);
    NothingChecked(lines, base, chinese);
    OneLineMore(lines, base, chinese, [], 1, first);
    OneLineMore(lines, base, chinese, With([], first), 2, second);
    OneLineMore(lines, base, chinese, With(With([], first), second), 3, third);
  }

  lemma NothingChecked(lines: seq<string>, base: string, chinese: bool)
    requires |base| >= 10 && IsDateText(base[..10])
    ensures CheckedTo(lines, base, chinese, [], 0)
  {
  }

  lemma ComplaintsExactly(lines: seq<string>, base: string, chinese: bool, archive: Option<HeaderError>)
    requires |base| >= 10 && IsDateText(base[..10]) && archive in {None, Some(BadArchiveLine), Some(PredatesNote)}
    requires archive.None? <==> Line(lines, 3).Some? && GoodArchiveLine(lines[3], base[..10])
    requires archive == Some(PredatesNote) <==> Line(lines, 3).Some? && Predates(lines[3], base[..10])
    ensures var errors := Complaints(lines, base, chinese, archive);
      && (errors == [] <==> GoodHeader(lines, base, chinese))
      && (forall error :: error in errors <==> Complains(lines, base, chinese, error))
      && (forall i, j | 0 <= i < j < |errors| :: LineOf(errors[i]) < LineOf(errors[j]))
  {
    var fifth := Found(Line(lines, 4) != Some(""), NoBlankBehindDate);
    var sixth := Found(Line(lines, 5) != Some(Switcher(base, chinese)), BadSwitcher);
    PlainLines(lines, base, chinese);
    ArchiveLine(lines, base, chinese, archive);
    FrontExactly(lines, base, chinese);
    OneLineMore(lines, base, chinese, Front(lines), 4, archive);
    OneLineMore(lines, base, chinese, With(Front(lines), archive), 5, fifth);
    OneLineMore(lines, base, chinese, With(With(Front(lines), archive), fifth), 6, sixth);
    CheckedAll(lines, base, chinese, Complaints(lines, base, chinese, archive));
  }

  lemma CheckedAll(lines: seq<string>, base: string, chinese: bool, errors: seq<HeaderError>)
    requires |base| >= 10 && IsDateText(base[..10]) && CheckedTo(lines, base, chinese, errors, 6)
    ensures forall error :: error in errors <==> Complains(lines, base, chinese, error)
    ensures errors == [] <==> GoodHeader(lines, base, chinese)
  {
    forall error ensures error in errors <==> Complains(lines, base, chinese, error) {
      assert LineOf(error) <= 6;
    }
    if errors == [] {
      assert BadTitle !in errors && NoBlankBehindTitle !in errors && BadStatus !in errors && BadArchiveLine !in errors;
      assert PredatesNote !in errors && NoBlankBehindDate !in errors && BadSwitcher !in errors;
    } else {
      assert errors[0] in errors;
    }
  }

  /** `validateHeader`: the complaints, in the order of the lines. */
  method ValidateHeader(lines: seq<string>, base: string, chinese: bool) returns (errors: seq<HeaderError>)
    requires |base| >= 10 && IsDateText(base[..10])
    ensures errors == [] <==> GoodHeader(lines, base, chinese)
    ensures forall error :: error in errors <==> Complains(lines, base, chinese, error)
    ensures forall i, j | 0 <= i < j < |errors| :: LineOf(errors[i]) < LineOf(errors[j])
  {
    var title := Line(lines, 0);
    errors := With([], Found(title.None? || !IsTitle(title.value), BadTitle));
    errors := With(errors, Found(Line(lines, 1) != Some(""), NoBlankBehindTitle));
    errors := With(errors, Found(Line(lines, 2) != Some("Status: implemented"), BadStatus));
    var archive := CheckArchiveLine(Line(lines, 3), base[..10]);
    errors := With(errors, archive);
    errors := With(errors, Found(Line(lines, 4) != Some(""), NoBlankBehindDate));
    errors := With(errors, Found(Line(lines, 5) != Some(Switcher(base, chinese)), BadSwitcher));
    ComplaintsExactly(lines, base, chinese, archive);
  }
}
