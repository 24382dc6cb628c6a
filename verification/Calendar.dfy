/**
  Calendar dates of `packages/shared/src/utils/dates.ts`. The `Date` arithmetic underneath is that
  of ECMA-262 section 21.4.1 (day numbers from 1 January 1970, MakeDay with month and day overflow)
  and section 21.4.3.4 (`Date.UTC`, which reads the years 0 to 99 as 1900 to 1999).
 */
module Calendar {
  import opened TextOrder

  // ---- ECMA-262 day arithmetic ---------------------------------------------------------------

  predicate Leap(y: int) { y % 4 == 0 && (y % 100 != 0 || y % 400 == 0) }

  function DaysInYear(y: int): int { if Leap(y) then 366 else 365 }

  /** Day number of 1 January of year `y`: 0 for 1970, a year's length more for each year. */
  function DayFromYear(y: int): int
    decreases if y < 1970 then 1970 - y else y - 1970
  {
    if y == 1970 then 0
    else if y > 1970 then DayFromYear(y - 1) + DaysInYear(y - 1)
    else DayFromYear(y + 1) - DaysInYear(y)
  }

  /** Length of month `m`, counted from 0 (January). */
  function MonthLength(leap: bool, m: int): int {
    if m == 1 then (if leap then 29 else 28) else if m == 3 || m == 5 || m == 8 || m == 10 then 30 else 31
  }

  function DaysInMonth(y: int, m: int): int { MonthLength(Leap(y), m) }

  /** Days of a year before its month `m` (12 stands for the end of the year). */
  function DaysBeforeMonth(leap: bool, m: int): int
    requires 0 <= m <= 12
  {
    if m == 0 then 0 else DaysBeforeMonth(leap, m - 1) + MonthLength(leap, m - 1)
  }

  lemma TwelveMonths(leap: bool)
    ensures DaysBeforeMonth(leap, 12) == if leap then 366 else 365
  {
    assert DaysBeforeMonth(leap, 2) == DaysBeforeMonth(leap, 1) + (if leap then 29 else 28);
    assert DaysBeforeMonth(leap, 4) == DaysBeforeMonth(leap, 2) + 61;
    assert DaysBeforeMonth(leap, 6) == DaysBeforeMonth(leap, 4) + 61;
    assert DaysBeforeMonth(leap, 8) == DaysBeforeMonth(leap, 6) + 62;
    assert DaysBeforeMonth(leap, 10) == DaysBeforeMonth(leap, 8) + 61;
  }

  /** MakeDay: months overflow into years, days overflow freely. */
  function MakeDay(y: int, m: int, d: int): int {
    var ym := y + m / 12;
    DayFromYear(ym) + DaysBeforeMonth(Leap(ym), m % 12) + d - 1
  }

  /** A year, a month from 0, a day from 1. */
  datatype Civil = Civil(year: int, month: int, day: int)

  predicate RealDate(c: Civil) {
    0 <= c.month < 12 && 1 <= c.day <= DaysInMonth(c.year, c.month)
  }

  function DayOf(c: Civil): int { MakeDay(c.year, c.month, c.day) }

  lemma YearStep(y: int)
    ensures DayFromYear(y + 1) == DayFromYear(y) + DaysInYear(y)
  {
  }

  /** The closed form ECMA-262 gives for the same number. */
  function ClosedForm(y: int): int {
    365 * (y - 1970) + (y - 1969) / 4 - (y - 1901) / 100 + (y - 1601) / 400
  }

  lemma Quotients(y: int)
    ensures (y - 1968) / 4 == y / 4 - 492 && (y - 1969) / 4 == (y - 1) / 4 - 492
    ensures (y - 1900) / 100 == y / 100 - 19 && (y - 1901) / 100 == (y - 1) / 100 - 19
    ensures (y - 1600) / 400 == y / 400 - 4 && (y - 1601) / 400 == (y - 1) / 400 - 4
  {
  }

  lemma QuotientSteps(y: int)
    ensures y / 4 - (y - 1) / 4 == if y % 4 == 0 then 1 else 0
    ensures y / 100 - (y - 1) / 100 == if y % 100 == 0 then 1 else 0
    ensures y / 400 - (y - 1) / 400 == if y % 400 == 0 then 1 else 0
    ensures (y % 400 == 0 ==> y % 100 == 0) && (y % 100 == 0 ==> y % 4 == 0)
  {
  }

  lemma ClosedFormStep(y: int)
    ensures ClosedForm(y + 1) == ClosedForm(y) + DaysInYear(y)
  {
    Quotients(y);
    QuotientSteps(y);
  }

  /** Counting year by year gives the closed form, before and after 1970. */
  lemma {:induction false} DayFromYearIsClosedForm(y: int)
    ensures DayFromYear(y) == ClosedForm(y)
    decreases if y < 1970 then 1970 - y else y - 1970
  {
    if y > 1970 {
      DayFromYearIsClosedForm(y - 1);
      ClosedFormStep(y - 1);
    } else if y < 1970 {
      DayFromYearIsClosedForm(y + 1);
      ClosedFormStep(y);
    }
  }

  /** Earlier years start earlier, by at least 365 days each. */
  lemma {:induction false} YearsAscend(y: int, z: int)
    requires y <= z
    ensures DayFromYear(y) + 365 * (z - y) <= DayFromYear(z) <= DayFromYear(y) + 366 * (z - y)
    decreases z - y
  {
    if y < z {
      YearsAscend(y, z - 1);
      YearStep(z - 1);
    }
  }

  /** Searching from year `y`: the year whose days include day `n`. */
  function SearchYear(n: int, y: int): (r: int)
    ensures DayFromYear(r) <= n < DayFromYear(r + 1)
    decreases n < DayFromYear(y), if n < DayFromYear(y) then DayFromYear(y) - n else n - DayFromYear(y)
  {
    YearsAscend(y - 1, y);
    YearsAscend(y, y + 1);
    if n < DayFromYear(y) then SearchYear(n, y - 1)
    else if n >= DayFromYear(y + 1) then SearchYear(n, y + 1)
    else y
  }

  /** YearFromTime: the largest year that starts no later than day `n`. */
  function YearFromDay(n: int): (y: int)
    ensures DayFromYear(y) <= n < DayFromYear(y + 1)
  {
    SearchYear(n, 1970)
  }

  lemma YearIsUnique(n: int, y: int)
    requires DayFromYear(y) <= n < DayFromYear(y + 1)
    ensures YearFromDay(n) == y
  {
    var r := YearFromDay(n);
    if r < y { YearsAscend(r + 1, y); } else if y < r { YearsAscend(y + 1, r); }
  }

  /** MonthFromTime on the day `k` of a year, searching from month `m`. */
  function SearchMonth(leap: bool, k: int, m: int): (r: int)
    requires 0 <= m < 12 && DaysBeforeMonth(leap, m) <= k < DaysBeforeMonth(leap, 12)
    ensures m <= r < 12 && DaysBeforeMonth(leap, r) <= k < DaysBeforeMonth(leap, r + 1)
    decreases 12 - m
  {
    if k < DaysBeforeMonth(leap, m + 1) then m else SearchMonth(leap, k, m + 1)
  }

  /** The calendar fields of a day: what `getUTCFullYear`, `getUTCMonth`, `getUTCDate` read. */
  function CivilFromDay(n: int): (c: Civil)
    ensures RealDate(c)
  {
    var y := YearFromDay(n);
    YearStep(y);
    TwelveMonths(Leap(y));
    var k := n - DayFromYear(y);
    var m := SearchMonth(Leap(y), k, 0);
    Civil(y, m, k - DaysBeforeMonth(Leap(y), m) + 1)
  }

  lemma {:induction false} MonthsAscend(leap: bool, m: int, k: int)
    requires 0 <= m <= k <= 12
    ensures DaysBeforeMonth(leap, m) + 28 * (k - m) <= DaysBeforeMonth(leap, k)
    decreases k - m
  {
    if m < k { MonthsAscend(leap, m, k - 1); }
  }

  lemma MonthsDisjoint(leap: bool, k: int, m: int, r: int)
    requires 0 <= m < 12 && DaysBeforeMonth(leap, m) <= k < DaysBeforeMonth(leap, m + 1)
    requires 0 <= r < 12 && DaysBeforeMonth(leap, r) <= k < DaysBeforeMonth(leap, r + 1)
    ensures m == r
  {
    if r < m { MonthsAscend(leap, r + 1, m); } else if m < r { MonthsAscend(leap, m + 1, r); }
  }

  lemma MonthIsUnique(leap: bool, k: int, m: int)
    requires 0 <= m < 12 && DaysBeforeMonth(leap, m) <= k < DaysBeforeMonth(leap, m + 1)
    ensures 0 <= k < DaysBeforeMonth(leap, 12) && SearchMonth(leap, k, 0) == m
  {
    MonthsAscend(leap, 0, m);
    MonthsAscend(leap, m + 1, 12);
    MonthsDisjoint(leap, k, m, SearchMonth(leap, k, 0));
  }

  lemma DayOfRealDate(c: Civil)
    requires 0 <= c.month < 12
    ensures DayOf(c) == DayFromYear(c.year) + (DaysBeforeMonth(Leap(c.year), c.month) + c.day - 1)
  {
    assert c.month / 12 == 0 && c.month % 12 == c.month;
  }

  lemma DayLiesInYear(c: Civil)
    requires RealDate(c)
    ensures DayFromYear(c.year) <= DayOf(c) < DayFromYear(c.year + 1)
  {
    DayOfRealDate(c);
    YearStep(c.year);
    DayOfYearBound(Leap(c.year), c.month, c.day);
  }

  lemma DayOfYearBound(leap: bool, m: int, d: int)
    requires 0 <= m < 12 && 1 <= d <= MonthLength(leap, m)
    ensures 0 <= DaysBeforeMonth(leap, m) + d - 1 < if leap then 366 else 365
  {
    MonthIsUnique(leap, DaysBeforeMonth(leap, m) + d - 1, m);
    TwelveMonths(leap);
  }

  lemma FieldsFromParts(n: int, y: int, k: int, m: int)
    requires YearFromDay(n) == y && k == n - DayFromYear(y)
    requires 0 <= m < 12 && DaysBeforeMonth(Leap(y), m) <= k < DaysBeforeMonth(Leap(y), m + 1)
    ensures CivilFromDay(n) == Civil(y, m, k - DaysBeforeMonth(Leap(y), m) + 1)
  {
    MonthIsUnique(Leap(y), k, m);
    assert CivilFromDay(n).month == SearchMonth(Leap(y), k, 0);
  }

  /** The day number of a real date reads back as that date. */
  lemma FieldsOfDay(c: Civil)
    requires RealDate(c)
    ensures CivilFromDay(DayOf(c)) == c
  {
    var k := DaysBeforeMonth(Leap(c.year), c.month) + c.day - 1;
    DayLiesInYear(c);
    YearIsUnique(DayOf(c), c.year);
    DayOfRealDate(c);
    FieldsFromParts(DayOf(c), c.year, k, c.month);
  }

  /** Every day number is the number of the date it reads as. */
  lemma DayOfFields(n: int)
    ensures DayOf(CivilFromDay(n)) == n
  {
  }

  // ---- Order ---------------------------------------------------------------------------------

  predicate CivilLess(a: Civil, b: Civil) {
    a.year < b.year || (a.year == b.year && (a.month < b.month || (a.month == b.month && a.day < b.day)))
  }

  /** Among real dates, (year, month, day) order is day-number order. */
  lemma ChronologicalOrder(a: Civil, b: Civil)
    requires RealDate(a) && RealDate(b)
    ensures CivilLess(a, b) <==> DayOf(a) < DayOf(b)
    ensures a == b <==> DayOf(a) == DayOf(b)
  {
    if CivilLess(a, b) { LaterDate(a, b); } else if CivilLess(b, a) { LaterDate(b, a); }
  }

  lemma LaterDate(a: Civil, b: Civil)
    requires RealDate(a) && RealDate(b) && CivilLess(a, b)
    ensures DayOf(a) < DayOf(b)
  {
    if a.year < b.year {
      DayLiesInYear(a);
      DayLiesInYear(b);
      YearsAscend(a.year + 1, b.year);
    } else {
      LaterInYear(Leap(a.year), a, b);
      DayOfRealDate(a);
      DayOfRealDate(b);
    }
  }

  lemma LaterInYear(leap: bool, a: Civil, b: Civil)
    requires 0 <= a.month <= b.month < 12 && (a.month == b.month ==> a.day < b.day)
    requires a.day <= MonthLength(leap, a.month) && 1 <= b.day
    ensures DaysBeforeMonth(leap, a.month) + a.day < DaysBeforeMonth(leap, b.month) + b.day
  {
    if a.month < b.month { MonthsAscend(leap, a.month + 1, b.month); }
  }
}
