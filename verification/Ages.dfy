/**
  Ages and available dates (`packages/shared/src/utils/dates.ts`). The specifications count days;
  the code compares fields and strings.
 */
module Ages {
  import opened TextOrder
  import opened Calendar
  import opened Dates

  // ---- Birthdays -----------------------------------------------------------------------------

  /** The day of the `k`-th birthday; someone born on 29 February has it on 1 March in common years. */
  function Birthday(dob: Civil, k: int): int { MakeDay(dob.year + k, dob.month, dob.day) }

  lemma {:induction false} LeapShift(m: int)
    requires 0 <= m <= 12
    ensures DaysBeforeMonth(true, m) == DaysBeforeMonth(false, m) + if m >= 2 then 1 else 0
  {
    if m > 0 { LeapShift(m - 1); }
  }

  lemma BirthdayInYear(dob: Civil, k: int)
    requires RealDate(dob)
    ensures Birthday(dob, k) ==
            DayFromYear(dob.year + k) + DaysBeforeMonth(Leap(dob.year + k), dob.month) + dob.day - 1
  {
    DayOfRealDate(Civil(dob.year + k, dob.month, dob.day));
  }

  /** One birthday to the next is 365 or 366 days. */
  lemma BirthdayStep(dob: Civil, k: int)
    requires RealDate(dob)
    ensures Birthday(dob, k) + 365 <= Birthday(dob, k + 1) <= Birthday(dob, k) + 366
  {
    BirthdayInYear(dob, k);
    BirthdayInYear(dob, k + 1);
    YearStep(dob.year + k);
    LeapShift(dob.month);
  }

  lemma {:induction false} BirthdaysAscend(dob: Civil, j: int, k: int)
    requires RealDate(dob) && j <= k
    ensures Birthday(dob, j) + 365 * (k - j) <= Birthday(dob, k) <= Birthday(dob, j) + 366 * (k - j)
    decreases k - j
  {
    if j < k {
      BirthdaysAscend(dob, j, k - 1);
      BirthdayStep(dob, k - 1);
    }
  }

  /** `k` birthdays of `dob` have passed by day `n` (counting the day of birth as the 0th). */
  predicate AgedOn(dob: Civil, n: int, k: int) { Birthday(dob, k) <= n < Birthday(dob, k + 1) }

  lemma AgeIsUnique(dob: Civil, n: int, j: int, k: int)
    requires RealDate(dob) && AgedOn(dob, n, j) && AgedOn(dob, n, k)
    ensures j == k
  {
    if j < k { BirthdaysAscend(dob, j + 1, k); } else if k < j { BirthdaysAscend(dob, k + 1, j); }
  }

  // ---- calculateAge --------------------------------------------------------------------------

  /** The year difference, less one while this year's birthday is still ahead. */
  function FieldAge(dob: Civil, today: Civil): int {
    today.year - dob.year -
    if today.month < dob.month || (today.month == dob.month && today.day < dob.day) then 1 else 0
  }

  lemma BirthdayThisYear(leap: bool, dob: Civil, today: Civil)
    requires 0 <= dob.month < 12 && 1 <= dob.day <= MonthLength(leap, dob.month) + 1
    requires 0 <= today.month < 12 && 1 <= today.day <= MonthLength(leap, today.month)
    ensures (today.month < dob.month || (today.month == dob.month && today.day < dob.day)) <==>
            DaysBeforeMonth(leap, today.month) + today.day < DaysBeforeMonth(leap, dob.month) + dob.day
  {
    if today.month < dob.month { MonthsAscend(leap, today.month + 1, dob.month); }
    if dob.month < today.month { MonthsAscend(leap, dob.month + 1, today.month); }
  }

  /** Comparing year, month and day counts birthdays, for every pair of real dates. */
  lemma FieldAgeCountsBirthdays(dob: Civil, today: Civil)
    requires RealDate(dob) && RealDate(today)
    ensures AgedOn(dob, DayOf(today), FieldAge(dob, today))
  {
    hide Leap, DayFromYear, DaysBeforeMonth, Birthday;
    var k, leap := today.year - dob.year, Leap(today.year);
    BirthdayInYear(dob, k);
    DayOfRealDate(today);
    BirthdayThisYear(leap, dob, today);
    DayLiesInYear(today);
    NeighbouringBirthdays(dob, k);
  }

  lemma NeighbouringBirthdays(dob: Civil, k: int)
    requires RealDate(dob)
    ensures Birthday(dob, k - 1) <= DayFromYear(dob.year + k)
    ensures DayFromYear(dob.year + k + 1) <= Birthday(dob, k + 1)
  {
    hide Leap, MakeDay;
    var leap := Leap(dob.year + k - 1);
    BirthdayInYear(dob, k - 1);
    BirthdayInYear(dob, k + 1);
    YearStep(dob.year + k - 1);
    TwelveMonths(leap);
    MonthsAscend(leap, dob.month + 1, 12);
    MonthsAscend(Leap(dob.year + k + 1), 0, dob.month);
  }

  /** The same month and day `k` years later, whether or not there is such a date. */
  function Anniversary(dob: Civil, k: int): Civil { dob.(year := dob.year + k) }

  /**
    `calculateAge`, for any two texts of the form YYYY-MM-DD: the last anniversary on or before `today`
    in (year, month, day) order. For real dates that is the number of birthdays passed.
   */
  method CalculateAge(dateOfBirth: string, today: string) returns (age: int)
    requires Shaped(dateOfBirth) && Shaped(today)
    ensures var b, t := Fields(dateOfBirth), Fields(today);
            !CivilLess(t, Anniversary(b, age)) && CivilLess(t, Anniversary(b, age + 1))
    ensures CalendarDate(dateOfBirth) && CalendarDate(today) ==> AgedOn(Fields(dateOfBirth), Day(today), age)
  {
    var b, t := Fields(dateOfBirth), Fields(today);
    age := t.year - b.year;
    if t.month < b.month || (t.month == b.month && t.day < b.day) { age := age - 1; }
    if RealDate(b) && RealDate(t) { FieldAgeCountsBirthdays(b, t); }
  }

  /** Later days never lower the age; it rises by one exactly on the days that are birthdays. */
  lemma AgeRisesOnBirthdays(dob: Civil, n: int, k: int, n': int, k': int)
    requires RealDate(dob) && AgedOn(dob, n, k) && AgedOn(dob, n', k') && n <= n'
    ensures k <= k'
    ensures n' == n + 1 ==> k' == k + if n' == Birthday(dob, k + 1) then 1 else 0
  {
    if k' < k { BirthdaysAscend(dob, k' + 1, k); }
    if k + 1 < k' { BirthdaysAscend(dob, k + 1, k'); }
  }

  /** The elapsed days bracket the age of everyone already born. */
  lemma AgeInDays(dob: Civil, n: int, k: int)
    requires RealDate(dob) && AgedOn(dob, n, k) && DayOf(dob) <= n
    ensures 0 <= k && 365 * k <= n - DayOf(dob) < 366 * (k + 1)
  {
    assert Birthday(dob, 0) == DayOf(dob);
    if k < 0 { BirthdaysAscend(dob, k + 1, 0); }
    BirthdaysAscend(dob, 0, k);
    BirthdaysAscend(dob, 0, k + 1);
  }

  // ---- isAdult -------------------------------------------------------------------------------

  const MIN_AGE: int := 18

  /** `isAdult`: the eighteenth anniversary, for real dates the eighteenth birthday, is today or behind. */
  method IsAdult(dateOfBirth: string, today: string) returns (adult: bool)
    requires Shaped(dateOfBirth) && Shaped(today)
    ensures adult <==> !CivilLess(Fields(today), Anniversary(Fields(dateOfBirth), 18))
    ensures CalendarDate(dateOfBirth) && CalendarDate(today) ==>
              (adult <==> Birthday(Fields(dateOfBirth), 18) <= Day(today))
  {
    var age := CalculateAge(dateOfBirth, today);
    adult := age >= MIN_AGE;
    if CalendarDate(dateOfBirth) && CalendarDate(today) {
      if adult {
        BirthdaysAscend(Fields(dateOfBirth), MIN_AGE, age);
      } else {
        BirthdaysAscend(Fields(dateOfBirth), age + 1, MIN_AGE);
      }
    }
  }

  /** Being an adult survives every later date that `addDays` can produce. */
  lemma AdultStaysAdult(dob: string, today: string, days: nat)
    requires CalendarDate(dob) && CalendarDate(today) && InRange(today, days)
    requires Birthday(Fields(dob), 18) <= Day(today)
    ensures IsDate(DaysAdded(today, days))
    ensures Birthday(Fields(dob), 18) <= Day(DaysAdded(today, days).text)
  {
    AddedDateIsCalendarDate(today, days);
  }

  // ---- availableDatesError -------------------------------------------------------------------

  const AVAILABLE_DATES_MAX: int := 30
  const AVAILABLE_DATES_HORIZON_DAYS: int := 365

  datatype DatesError = NoError | TooMany | NotADate | InThePast | TooFarAhead | Duplicate

  /** What is wrong with one date, in terms of days. */
  function DateError(date: string, today: string): DatesError
    requires CalendarDate(today)
  {
    if !IsIsoDate(date) then NotADate
    else
      IsIsoDateExactly(date);
      if Day(date) < Day(today) then InThePast
      else if Day(date) > Day(today) + AVAILABLE_DATES_HORIZON_DAYS then TooFarAhead
      else NoError
  }

  /** The first date with something wrong decides. */
  function FirstError(dates: seq<string>, today: string): DatesError
    requires CalendarDate(today)
  {
    if dates == [] then NoError
    else if DateError(dates[0], today) != NoError then DateError(dates[0], today)
    else FirstError(dates[1..], today)
  }

  predicate Distinct(dates: seq<string>) {
    forall i, j | 0 <= i < j < |dates| :: dates[i] != dates[j]
  }

  lemma {:induction false} SetSizeCountsDistinct(dates: seq<string>)
    ensures |set d | d in dates| <= |dates|
    ensures |set d | d in dates| == |dates| <==> Distinct(dates)
  {
    if dates != [] {
      var n := |dates| - 1;
      var rest, last := dates[..n], dates[n];
      SetSizeCountsDistinct(rest);
      var members := set d | d in rest;
      assert (set d | d in dates) == members + {last};
      if last in rest {
        assert members + {last} == members;
        var i :| 0 <= i < n && rest[i] == last;
        assert dates[i] == dates[n];
      } else {
        assert Distinct(rest) <==> Distinct(dates);
      }
    }
  }

  lemma {:induction false} FirstErrorOfPrefix(dates: seq<string>, today: string, i: nat)
    requires CalendarDate(today) && i < |dates|
    requires FirstError(dates[..i], today) == NoError
    ensures FirstError(dates[..i + 1], today) == DateError(dates[i], today)
    ensures DateError(dates[i], today) != NoError ==> FirstError(dates, today) == DateError(dates[i], today)
    decreases i
  {
    if i > 0 {
      assert dates[..i][1..] == dates[1..][..i - 1] && dates[..i + 1][1..] == dates[1..][..i];
      FirstErrorOfPrefix(dates[1..], today, i - 1);
    } else {
      assert dates[..1][1..] == [];
    }
  }

  /** A real date from today to 365 days ahead (of the years `isIsoDate` knows). */
  predicate Available(date: string, today: string)
    requires CalendarDate(today)
  {
    && CalendarDate(date) && Fields(date).year >= 100
    && Day(today) <= Day(date) <= Day(today) + 365
  }

  /** What the function is for: at most 30 different available dates. */
  predicate Acceptable(dates: seq<string>, today: string)
    requires CalendarDate(today)
  {
    |dates| <= 30 && Distinct(dates) && forall i | 0 <= i < |dates| :: Available(dates[i], today)
  }

  lemma {:induction false} NoErrorMeans(dates: seq<string>, today: string)
    requires CalendarDate(today)
    ensures FirstError(dates, today) == NoError <==> forall i | 0 <= i < |dates| :: Available(dates[i], today)
  {
    if dates != [] {
      IsIsoDateExactly(dates[0]);
      NoErrorMeans(dates[1..], today);
      assert forall i | 1 <= i < |dates| :: dates[i] == dates[1..][i - 1];
    }
  }

  /** What an error says of the date it is about. */
  predicate Deserves(date: string, today: string, error: DatesError)
    requires CalendarDate(today)
  {
    var exact := CalendarDate(date) && Fields(date).year >= 100;
    match error
    case NotADate => !exact
    case InThePast => exact && Day(date) < Day(today)
    case TooFarAhead => exact && Day(date) > Day(today) + 365
    case _ => false
  }

  lemma DateErrorMeans(date: string, today: string)
    requires CalendarDate(today)
    ensures DateError(date, today) == NoError <==> Available(date, today)
    ensures DateError(date, today) != NoError ==> Deserves(date, today, DateError(date, today))
  {
    IsIsoDateExactly(date);
  }

  /** Entry `i` is the first that is not available, and deserves the error. */
  predicate FirstAt(dates: seq<string>, today: string, error: DatesError, i: nat)
    requires CalendarDate(today)
  {
    i < |dates| && Deserves(dates[i], today, error) && forall j | 0 <= j < i :: Available(dates[j], today)
  }

  /** The error is deserved by the first date that is not available. */
  lemma {:induction false} FirstErrorMeans(dates: seq<string>, today: string)
    requires CalendarDate(today)
    ensures FirstError(dates, today) != NoError ==>
              exists i: nat :: FirstAt(dates, today, FirstError(dates, today), i)
  {
    if dates != [] {
      hide CalendarDate, DateError, Deserves, Available;
      DateErrorMeans(dates[0], today);
      if DateError(dates[0], today) != NoError {
        assert FirstAt(dates, today, FirstError(dates, today), 0);
      } else if FirstError(dates, today) != NoError {
        FirstErrorMeans(dates[1..], today);
        var i: nat :| FirstAt(dates[1..], today, FirstError(dates, today), i);
        assert forall j | 1 <= j < i + 1 :: dates[j] == dates[1..][j - 1];
        assert FirstAt(dates, today, FirstError(dates, today), i + 1);
      }
    }
  }

  /**
    `availableDatesError`, which compares strings. As long as the horizon has a four-digit year it
    gives the first error in terms of days; past that year the horizon's text starts with `+`, every
    date compares as later, and no date at all is accepted.
   */
  method AvailableDatesError(dates: seq<string>, today: string) returns (error: DatesError)
    requires CalendarDate(today)
    ensures error == TooMany <==> |dates| > 30
    ensures |dates| <= 30 && InRange(today, AVAILABLE_DATES_HORIZON_DAYS) ==>
              error == if FirstError(dates, today) != NoError then FirstError(dates, today)
                       else if !Distinct(dates) then Duplicate else NoError
    ensures error == NoError <==>
              Acceptable(dates, today) && (dates == [] || InRange(today, AVAILABLE_DATES_HORIZON_DAYS))
    ensures 0 < |dates| <= 30 && !InRange(today, AVAILABLE_DATES_HORIZON_DAYS) ==>
              error == if Deserves(dates[0], today, NotADate) then NotADate
                       else if Deserves(dates[0], today, InThePast) then InThePast else TooFarAhead
  {
    hide Available, CalendarDate, IsIsoDate, Less, Day, Fields, InRange, DaysAdded, Distinct;
    NoErrorMeans(dates, today);
    if |dates| > AVAILABLE_DATES_MAX { return TooMany; }
    var horizon := AddDays(today, AVAILABLE_DATES_HORIZON_DAYS);
    HorizonText(today);
    for i := 0 to |dates|
      invariant InRange(today, AVAILABLE_DATES_HORIZON_DAYS) ==> FirstError(dates[..i], today) == NoError
      invariant !InRange(today, AVAILABLE_DATES_HORIZON_DAYS) ==> i == 0
    {
      var date := dates[i];
      IsIsoDateExactly(date);
      if InRange(today, AVAILABLE_DATES_HORIZON_DAYS) { FirstErrorOfPrefix(dates, today, i); }
      if !IsIsoDate(date) { return NotADate; }
      StringOrderIsChronological(date, today);
      HorizonComparison(date, today);
      if Less(date, today) { return InThePast; }
      if Less(horizon.text, date) { return TooFarAhead; }
    }
    assert dates[..|dates|] == dates;
    SetSizeCountsDistinct(dates);
    if |set d | d in dates| != |dates| { return Duplicate; }
    return NoError;
  }

  lemma HorizonText(today: string)
    requires CalendarDate(today)
    ensures DaysAdded(today, AVAILABLE_DATES_HORIZON_DAYS).Ok?
  {
    TextOfOwnDay(today);
  }

  lemma HorizonComparison(date: string, today: string)
    requires CalendarDate(date) && CalendarDate(today)
    ensures var horizon := DaysAdded(today, AVAILABLE_DATES_HORIZON_DAYS);
            && horizon.Ok?
            && (Less(horizon.text, date) <==>
                Day(today) + AVAILABLE_DATES_HORIZON_DAYS < Day(date) || !InRange(today, AVAILABLE_DATES_HORIZON_DAYS))
  {
    hide DayOf, CivilFromDay, RealDate, Num, Digits;
    var n := Day(today) + AVAILABLE_DATES_HORIZON_DAYS;
    TextOfOwnDay(today);
    TextOfOwnDay(date);
    if n <= LAST_DAY {
      DayTextsAscend(n, Day(date));
    } else {
      SignedYears(n);
      assert TextOfDay(n).text[..1][0] == '+' < date[..4][0];
    }
  }

  /** In the year 9999 today itself is acceptable, and the horizon has no four-digit year. */
  lemma LastYearIsRefused(today: string)
    requires CalendarDate(today) && Fields(today).year == 9999
    ensures Acceptable([today], today) && !InRange(today, AVAILABLE_DATES_HORIZON_DAYS)
  {
    hide DayFromYear, MakeDay, Shaped, Num;
    var y := Fields(today).year;
    DayLiesInYear(Fields(today));
    YearStep(y);
    DayFromYearIsClosedForm(y + 1);
  }

  lemma LastDayIsRefused()
    ensures
      var today := FourDigitText(Civil(9999, 11, 31));
      CalendarDate(today) && Acceptable([today], today) && !InRange(today, AVAILABLE_DATES_HORIZON_DAYS)
  {
    var today := FourDigitText(Civil(9999, 11, 31));
    FieldsOfText(Civil(9999, 11, 31));
    hide FourDigitText, Acceptable, InRange, CalendarDate, Fields;
    LastYearIsRefused(today);
  }
}
