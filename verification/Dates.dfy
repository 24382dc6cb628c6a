/**
  `packages/shared/src/utils/dates.ts`: dates written `YYYY-MM-DD`, compared as strings.
 */
module Dates {
  import opened TextOrder
  import opened Calendar

  const FIRST_DAY: int := -719528                 // 0000-01-01
  const LAST_DAY: int := 2932896                  // 9999-12-31
  const MAX_TIME_DAYS: int := 100_000_000         // TimeClip: 8.64e15 ms either side of 1970

  // ---- Texts and their fields ----------------------------------------------------------------

  /** The pattern `^(\d{4})-(\d{2})-(\d{2})$`. */
  predicate Shaped(s: string) {
    |s| == 10 && s[4] == '-' && s[7] == '-' && AllDigits(s[..4]) && AllDigits(s[5..7]) && AllDigits(s[8..])
  }

  function Fields(s: string): Civil
    requires Shaped(s)
  {
    Civil(Num(s[..4]), Num(s[5..7]) - 1, Num(s[8..]))
  }

  /** A real date of the years 0000 to 9999, as text. */
  predicate CalendarDate(s: string) { Shaped(s) && RealDate(Fields(s)) }

  function Day(s: string): int
    requires CalendarDate(s)
  {
    DayOf(Fields(s))
  }

  function FourDigitText(c: Civil): string
    requires 0 <= c.year && RealDate(c)
  {
    Digits(c.year, 4) + "-" + Digits(c.month + 1, 2) + "-" + Digits(c.day, 2)
  }

  /** The first ten characters of `toISOString()`: years outside 0 to 9999 are signed, six digits. */
  function IsoText(c: Civil): string
    requires RealDate(c)
  {
    if 0 <= c.year <= 9999 then FourDigitText(c)
    else if c.year < 0 then "-" + Digits(-c.year, 6) + "-" + Digits(c.month + 1, 2)
    else "+" + Digits(c.year, 6) + "-" + Digits(c.month + 1, 2)
  }

  lemma Widths()
    ensures Pow10(2) == 100 && Pow10(4) == 10000
  {
    assert Pow10(2) == 10 * Pow10(1) && Pow10(4) == 10 * Pow10(3) == 100 * Pow10(2);
  }

  lemma FieldsOfText(c: Civil)
    requires RealDate(c) && 0 <= c.year <= 9999
    ensures CalendarDate(FourDigitText(c)) && Fields(FourDigitText(c)) == c
  {
    hide Digits, Num, Pow10;
    var s := FourDigitText(c);
    assert s[..4] == Digits(c.year, 4) && s[5..7] == Digits(c.month + 1, 2) && s[8..] == Digits(c.day, 2);
    Widths();
    NumOfDigits(c.year, 4);
    NumOfDigits(c.month + 1, 2);
    NumOfDigits(c.day, 2);
  }

  lemma TextOfFields(s: string)
    requires CalendarDate(s)
    ensures 0 <= Fields(s).year <= 9999 && FourDigitText(Fields(s)) == s
  {
    var y, m, d := s[..4], s[5..7], s[8..];
    Widths();
    NumBound(y);
    DigitsOfNum(y);
    DigitsOfNum(m);
    DigitsOfNum(d);
    assert s == y + "-" + m + "-" + d;
  }

  lemma ShapedOrder(a: string, b: string)
    requires Shaped(a) && Shaped(b)
    ensures Less(a, b) <==> CivilLess(Fields(a), Fields(b))
    ensures a == b <==> Fields(a) == Fields(b)
  {
    LessIsNumeric(a[..4], b[..4]);
    LessIsNumeric(a[5..7], b[5..7]);
    LessIsNumeric(a[8..], b[8..]);
    LessOfConcat(a[5..7], b[5..7], "-" + a[8..], "-" + b[8..]);
    LessOfConcat(a[..4], b[..4], "-" + (a[5..7] + ("-" + a[8..])), "-" + (b[5..7] + ("-" + b[8..])));
    assert a == a[..4] + ("-" + (a[5..7] + ("-" + a[8..])));
    assert b == b[..4] + ("-" + (b[5..7] + ("-" + b[8..])));
    SkipDash(a[8..], b[8..]);
    SkipDash(a[5..7] + ("-" + a[8..]), b[5..7] + ("-" + b[8..]));
  }

  lemma SkipDash(a: string, b: string)
    ensures Less("-" + a, "-" + b) <==> Less(a, b)
  {
    LessOfConcat("-", "-", a, b);
  }

  /** Comparing date texts as strings is comparing the days they name. */
  lemma StringOrderIsChronological(a: string, b: string)
    requires CalendarDate(a) && CalendarDate(b)
    ensures Less(a, b) <==> Day(a) < Day(b)
    ensures a == b <==> Day(a) == Day(b)
  {
    hide MakeDay, Num, Less, AllDigits;
    ShapedOrder(a, b);
    ChronologicalOrder(Fields(a), Fields(b));
  }

  // ---- isIsoDate -----------------------------------------------------------------------------

  /** `Date.UTC` reads a year of 0 to 99 as 1900 to 1999. */
  function UtcYear(y: int): int { if 0 <= y <= 99 then 1900 + y else y }

  /** `isIsoDate`: normalise through `Date.UTC` and compare the fields that come back. */
  predicate IsIsoDate(value: string) {
    Shaped(value) &&
    var f := Fields(value);
    var date := CivilFromDay(MakeDay(UtcYear(f.year), f.month, f.day));
    date.year == f.year && date.month == f.month && date.day == f.day
  }

  /** It accepts the real dates of the years 0100 to 9999: overflow is caught, 0000 to 0099 is lost. */
  lemma IsIsoDateExactly(value: string)
    ensures IsIsoDate(value) <==> CalendarDate(value) && Fields(value).year >= 100
  {
    if Shaped(value) {
      var f := Fields(value);
      if f.year >= 100 {
        if RealDate(f) { FieldsOfDay(f); }
      } else {
        RemappedYear(f);
      }
    }
  }

  /** 0050-01-01 is a real date, and refused. */
  lemma EarlyDateIsRefused()
    ensures var date := FourDigitText(Civil(50, 0, 1)); CalendarDate(date) && !IsIsoDate(date)
  {
    FieldsOfText(Civil(50, 0, 1));
    IsIsoDateExactly(FourDigitText(Civil(50, 0, 1)));
  }

  lemma RemappedYear(f: Civil)
    requires 0 <= f.year <= 99 && -1 <= f.month && 0 <= f.day
    ensures CivilFromDay(MakeDay(1900 + f.year, f.month, f.day)).year != f.year
  {
    var n := MakeDay(1900 + f.year, f.month, f.day);
    var ym := 1900 + f.year + f.month / 12;
    assert f.month / 12 >= -1;
    YearsAscend(1899, ym);
    MonthsAscend(Leap(ym), 0, f.month % 12);
    var y := YearFromDay(n);
    if y == f.year { YearsAscend(y + 1, 1898); YearsAscend(1898, 1899); }
  }

  // ---- addDays -------------------------------------------------------------------------------

  datatype DateText = Ok(text: string) | RangeError

  /** The text of day `n`, when a `Date` can hold it. */
  function TextOfDay(n: int): DateText {
    if -MAX_TIME_DAYS <= n <= MAX_TIME_DAYS then Ok(IsoText(CivilFromDay(n))) else RangeError
  }

  /** `addDays` as a function of the day number; `AddDays` below is proved to compute it. */
  function DaysAdded(isoDate: string, days: int): DateText
    requires CalendarDate(isoDate)
  {
    TextOfDay(Day(isoDate) + days)
  }

  lemma DayOverflow(c: Civil, days: int)
    ensures MakeDay(c.year, c.month, c.day + days) == DayOf(c) + days
  {
  }

  /** `addDays`: set the day of the month past its end and let the date normalise itself. */
  method AddDays(isoDate: string, days: int) returns (r: DateText)
    requires CalendarDate(isoDate)
    ensures r == DaysAdded(isoDate, days)
  {
    hide Leap, Num, DayFromYear, DaysBeforeMonth;
    var fields := Fields(isoDate);
    var date := DayOf(fields);
    assert CivilFromDay(date) == fields by { FieldsOfDay(fields); }
    DayOverflow(fields, days);
    date := MakeDay(CivilFromDay(date).year, CivilFromDay(date).month, CivilFromDay(date).day + days);
    if date < -MAX_TIME_DAYS || MAX_TIME_DAYS < date { return RangeError; }
    return Ok(IsoText(CivilFromDay(date)));
  }

  lemma FourDigitYears(n: int)
    ensures 0 <= CivilFromDay(n).year <= 9999 <==> FIRST_DAY <= n <= LAST_DAY
  {
    var y := YearFromDay(n);
    DayFromYearIsClosedForm(y);
    DayFromYearIsClosedForm(y + 1);
    if y < 0 { ClosedFormAscends(y + 1, 0); } else { ClosedFormAscends(0, y); }
    if y > 9999 { ClosedFormAscends(10000, y); } else { ClosedFormAscends(y + 1, 10000); }
  }

  /** Past the year 9999 the text starts with a `+`. */
  lemma SignedYears(n: int)
    requires LAST_DAY < n <= MAX_TIME_DAYS
    ensures TextOfDay(n).text[..1] == "+"
  {
    var y := YearFromDay(n);
    DayFromYearIsClosedForm(y + 1);
    if y <= 9999 { ClosedFormAscends(y + 1, 10000); }
  }

  lemma ClosedFormAscends(y: int, z: int)
    requires y <= z
    ensures ClosedForm(y) <= ClosedForm(z)
  {
    DayFromYearIsClosedForm(y);
    DayFromYearIsClosedForm(z);
    YearsAscend(y, z);
  }

  predicate IsDate(t: DateText) { t.Ok? && CalendarDate(t.text) }

  lemma DayText(n: int)
    ensures IsDate(TextOfDay(n)) <==> FIRST_DAY <= n <= LAST_DAY
    ensures FIRST_DAY <= n <= LAST_DAY ==> Day(TextOfDay(n).text) == n
  {
    FourDigitYears(n);
    var c := CivilFromDay(n);
    if 0 <= c.year <= 9999 {
      FieldsOfText(c);
      DayOfFields(n);
    } else if TextOfDay(n).Ok? {
      assert TextOfDay(n).text[..4][0] == TextOfDay(n).text[0] == if c.year < 0 then '-' else '+';
    }
  }

  lemma TextOfOwnDay(s: string)
    requires CalendarDate(s)
    ensures FIRST_DAY <= Day(s) <= LAST_DAY && TextOfDay(Day(s)) == Ok(s)
  {
    TextOfFields(s);
    FieldsOfDay(Fields(s));
    FourDigitYears(Day(s));
  }

  lemma DayTextsAscend(n: int, m: int)
    requires FIRST_DAY <= n <= LAST_DAY && FIRST_DAY <= m <= LAST_DAY
    ensures TextOfDay(n).Ok? && TextOfDay(m).Ok?
    ensures Less(TextOfDay(n).text, TextOfDay(m).text) <==> n < m
  {
    DayText(n);
    DayText(m);
    StringOrderIsChronological(TextOfDay(n).text, TextOfDay(m).text);
  }

  /** The day `days` after `d` still has a four-digit year. */
  predicate InRange(d: string, days: int)
    requires CalendarDate(d)
  {
    FIRST_DAY <= Day(d) + days <= LAST_DAY
  }

  /** The result is a well-formed date, `days` later, exactly while the year keeps four digits. */
  lemma AddedDateIsCalendarDate(d: string, days: int)
    requires CalendarDate(d)
    ensures IsDate(DaysAdded(d, days)) <==> InRange(d, days)
    ensures InRange(d, days) ==> Day(DaysAdded(d, days).text) == Day(d) + days
  {
    hide DayOf, Shaped, RealDate, IsoText;
    var n := Day(d) + days;
    assert DaysAdded(d, days) == TextOfDay(n);
    DayText(n);
  }

  lemma AddToDayText(n: int, b: int)
    requires FIRST_DAY <= n <= LAST_DAY
    ensures IsDate(TextOfDay(n)) && DaysAdded(TextOfDay(n).text, b) == TextOfDay(n + b)
  {
    hide DayOf, Shaped, RealDate, IsoText, CivilFromDay;
    DayText(n);
  }

  /** `addDays(addDays(d, a), b) == addDays(d, a + b)`. */
  lemma AddDaysComposes(d: string, a: int, b: int)
    requires CalendarDate(d) && InRange(d, a)
    ensures IsDate(DaysAdded(d, a))
    ensures DaysAdded(DaysAdded(d, a).text, b) == DaysAdded(d, a + b)
  {
    hide DayOf, CalendarDate, TextOfDay, Less;
    var n := Day(d) + a;
    assert DaysAdded(d, a) == TextOfDay(n) && DaysAdded(d, a + b) == TextOfDay(n + b);
    AddToDayText(n, b);
  }

  lemma AddNothing(d: string, days: int)
    requires CalendarDate(d) && days == 0
    ensures DaysAdded(d, days) == Ok(d)
  {
    hide DayOf, CalendarDate, Less;
    TextOfOwnDay(d);
  }

  /** `addDays(addDays(d, a), -a) == d`. */
  lemma AddDaysUndone(d: string, a: int)
    requires CalendarDate(d) && InRange(d, a)
    ensures IsDate(DaysAdded(d, a))
    ensures DaysAdded(DaysAdded(d, a).text, -a) == Ok(d)
  {
    hide DayOf, CalendarDate, TextOfDay, DaysAdded;
    AddDaysComposes(d, a, -a);
    AddNothing(d, a - a);
  }

  /** Two results compare, as strings, as the days they stand for. */
  lemma AddedDatesCompare(d: string, e: string, a: int, b: int)
    requires CalendarDate(d) && InRange(d, a) && CalendarDate(e) && InRange(e, b)
    ensures DaysAdded(d, a).Ok? && DaysAdded(e, b).Ok?
    ensures Less(DaysAdded(d, a).text, DaysAdded(e, b).text) <==> Day(d) + a < Day(e) + b
  {
    hide DayOf, CalendarDate, TextOfDay, Less;
    DayTextsAscend(Day(d) + a, Day(e) + b);
  }

  /** `addDays` is strictly monotone, as strings, in the date and in the days. */
  lemma AddDaysIsMonotone(d: string, e: string, a: int, b: int)
    requires CalendarDate(d) && InRange(d, a) && CalendarDate(e) && InRange(e, b)
    requires a <= b && (Less(d, e) || (d == e && a < b))
    ensures DaysAdded(d, a).Ok? && DaysAdded(e, b).Ok?
    ensures Less(DaysAdded(d, a).text, DaysAdded(e, b).text)
  {
    hide DayOf, CalendarDate, TextOfDay, Less;
    StringOrderIsChronological(d, e);
    AddedDatesCompare(d, e, a, b);
  }
}
