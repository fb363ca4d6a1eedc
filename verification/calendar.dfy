/** The proleptic Gregorian calendar that Python's `datetime` uses, counted
    in days from 1970-01-01 (day 0). `FromDayNumber` walks whole years and
    then whole months; `DayNumber` is its inverse. */
module Calendar {
  import opened Wrappers
  import opened Text

  const EpochYear: int := 1970

  predicate IsLeapYear(y: int) {
    y % 4 == 0 && (y % 100 != 0 || y % 400 == 0)
  }

  function DaysInYear(y: int): nat {
    if IsLeapYear(y) then 366 else 365
  }

  function DaysInMonth(y: int, m: nat): (n: nat)
    requires 1 <= m <= 12
    ensures 28 <= n <= 31
  {
    if m == 2 then (if IsLeapYear(y) then 29 else 28)
    else if m == 4 || m == 6 || m == 9 || m == 11 then 30
    else 31
  }

  /** Days of year `y` that lie before the first of month `m`. */
  function DaysBeforeMonth(y: int, m: nat): nat
    requires 1 <= m <= 13
    decreases m
  {
    if m == 1 then 0 else DaysBeforeMonth(y, m - 1) + DaysInMonth(y, m - 1)
  }

  lemma TwelveMonthsMakeAYear(y: int)
    ensures DaysBeforeMonth(y, 13) == DaysInYear(y)
  {
    assert DaysBeforeMonth(y, 2) == 31;
    assert DaysBeforeMonth(y, 3) == 31 + DaysInMonth(y, 2);
    assert DaysBeforeMonth(y, 4) == 62 + DaysInMonth(y, 2);
    assert DaysBeforeMonth(y, 5) == 92 + DaysInMonth(y, 2);
    assert DaysBeforeMonth(y, 6) == 123 + DaysInMonth(y, 2);
    assert DaysBeforeMonth(y, 7) == 153 + DaysInMonth(y, 2);
    assert DaysBeforeMonth(y, 8) == 184 + DaysInMonth(y, 2);
    assert DaysBeforeMonth(y, 9) == 215 + DaysInMonth(y, 2);
    assert DaysBeforeMonth(y, 10) == 245 + DaysInMonth(y, 2);
    assert DaysBeforeMonth(y, 11) == 276 + DaysInMonth(y, 2);
    assert DaysBeforeMonth(y, 12) == 306 + DaysInMonth(y, 2);
  }

  datatype Date = Date(year: int, month: nat, day: nat)

  predicate ValidDate(d: Date) {
    1 <= d.month <= 12 && 1 <= d.day <= DaysInMonth(d.year, d.month)
  }

  /** Day number of January 1st of year `y`. */
  function YearStart(y: int): int
    decreases if y < EpochYear then EpochYear - y else y - EpochYear
  {
    if y == EpochYear then 0
    else if y > EpochYear then YearStart(y - 1) + DaysInYear(y - 1)
    else YearStart(y + 1) - DaysInYear(y)
  }

  lemma YearStartStep(y: int)
    ensures YearStart(y + 1) == YearStart(y) + DaysInYear(y)
  {
  }

  /** Days from 1970-01-01 to `d`. */
  function DayNumber(d: Date): int
    requires ValidDate(d)
  {
    YearStart(d.year) + DaysBeforeMonth(d.year, d.month) + d.day - 1
  }

  /** The date `doy` days after the first of month `m` of year `y`. */
  function MonthWalk(y: int, m: nat, doy: nat): (d: Date)
    requires 1 <= m <= 12
    requires DaysBeforeMonth(y, m) + doy < DaysInYear(y)
    ensures ValidDate(d) && d.year == y && d.month >= m
    ensures DaysBeforeMonth(y, d.month) + d.day - 1 == DaysBeforeMonth(y, m) + doy
    decreases 12 - m
  {
    if doy < DaysInMonth(y, m) then Date(y, m, doy + 1)
    else
      TwelveMonthsMakeAYear(y);
      MonthWalk(y, m + 1, doy - DaysInMonth(y, m))
  }

  /** The date `doy` days after January 1st of year `y`, walking forward. */
  function YearWalkForward(y: int, doy: nat): (d: Date)
    ensures ValidDate(d) && d.year >= y
    ensures DayNumber(d) == YearStart(y) + doy
    decreases doy
  {
    if doy < DaysInYear(y) then MonthWalk(y, 1, doy)
    else
      YearStartStep(y);
      YearWalkForward(y + 1, doy - DaysInYear(y))
  }

  /** The date `back` days (a negative count) from January 1st of year
      `y + 1`, walking backward. */
  function YearWalkBackward(y: int, back: int): (d: Date)
    requires back < 0
    ensures ValidDate(d) && d.year <= y
    ensures DayNumber(d) == YearStart(y + 1) + back
    decreases -back
  {
    YearStartStep(y);
    var doy := back + DaysInYear(y);
    if doy >= 0 then MonthWalk(y, 1, doy) else YearWalkBackward(y - 1, doy)
  }

  /** The calendar date of day number `n`; `DayNumber` undoes it, so two
      different day numbers never share a date. */
  function FromDayNumber(n: int): (d: Date)
    ensures ValidDate(d) && DayNumber(d) == n
    ensures n >= 0 ==> d.year >= EpochYear
    ensures -365 <= n ==> d.year >= EpochYear - 1
  {
    if n >= 0 then YearWalkForward(EpochYear, n) else YearWalkBackward(EpochYear - 1, n)
  }

  /** A valid date starts no earlier than its year and ends before the next. */
  lemma DayNumberWithinYear(d: Date)
    requires ValidDate(d)
    ensures YearStart(d.year) <= DayNumber(d) < YearStart(d.year + 1)
  {
    YearStartStep(d.year);
    TwelveMonthsMakeAYear(d.year);
    DaysBeforeMonthMonotone(d.year, d.month + 1, 13);
  }

  lemma {:induction false} DaysBeforeMonthMonotone(y: int, m: nat, k: nat)
    requires 1 <= m <= k <= 13
    ensures DaysBeforeMonth(y, m) <= DaysBeforeMonth(y, k)
    decreases k - m
  {
    if m < k {
      DaysBeforeMonthMonotone(y, m, k - 1);
    }
  }

  lemma {:induction false} YearStartMonotone(a: int, b: int)
    requires a <= b
    ensures YearStart(a) <= YearStart(b)
    ensures a < b ==> YearStart(a + 1) <= YearStart(b)
    decreases b - a
  {
    if a < b {
      YearStartStep(a);
      YearStartMonotone(a + 1, b);
    }
  }

  lemma SameDayNumberSameYear(d1: Date, d2: Date)
    requires ValidDate(d1) && ValidDate(d2)
    requires DayNumber(d1) == DayNumber(d2)
    ensures d1.year == d2.year
  {
    DayNumberWithinYear(d1);
    DayNumberWithinYear(d2);
    if d1.year < d2.year {
      YearStartMonotone(d1.year, d2.year);
    } else if d2.year < d1.year {
      YearStartMonotone(d2.year, d1.year);
    }
  }

  /** Every day of an earlier month comes before the first of a later one. */
  lemma EarlierMonthFirst(y: int, m1: nat, day1: nat, m2: nat)
    requires 1 <= m1 < m2 <= 12 && day1 <= DaysInMonth(y, m1)
    ensures DaysBeforeMonth(y, m1) + day1 <= DaysBeforeMonth(y, m2)
  {
    DaysBeforeMonthMonotone(y, m1 + 1, m2);
  }

  lemma SameDayNumberSameMonth(d1: Date, d2: Date)
    requires ValidDate(d1) && ValidDate(d2) && d1.year == d2.year
    requires DayNumber(d1) == DayNumber(d2)
    ensures d1.month == d2.month
  {
    var y := d1.year;
    if d1.month < d2.month {
      EarlierMonthFirst(y, d1.month, d1.day, d2.month);
    } else if d2.month < d1.month {
      EarlierMonthFirst(y, d2.month, d2.day, d1.month);
    }
  }

  /** Two valid dates with the same day number are the same date. */
  lemma DayNumberInjective(d1: Date, d2: Date)
    requires ValidDate(d1) && ValidDate(d2)
    requires DayNumber(d1) == DayNumber(d2)
    ensures d1 == d2
  {
    SameDayNumberSameYear(d1, d2);
    SameDayNumberSameMonth(d1, d2);
  }

  /** The other half of the round trip: every valid date is the date of its
      own day number. */
  lemma FromDayNumberOfDate(d: Date)
    requires ValidDate(d)
    ensures FromDayNumber(DayNumber(d)) == d
  {
    DayNumberInjective(FromDayNumber(DayNumber(d)), d);
  }

  /** Python's `str(date)`: `%04d-%02d-%02d`. */
  function IsoDate(d: Date): (s: string)
    requires ValidDate(d) && d.year >= 0
    ensures |s| >= 10 && s[|s| - 3] == '-' && s[|s| - 6] == '-'
    ensures AllDigits(s[..|s| - 6]) && ParseNat(s[..|s| - 6]) == d.year
    ensures AllDigits(s[|s| - 5..|s| - 3]) && AllDigits(s[|s| - 2..])
    ensures ParseNat(s[|s| - 5..|s| - 3]) == d.month && ParseNat(s[|s| - 2..]) == d.day
  {
    var y := ZeroPad(d.year, 4);
    var s := y + "-" + Pad2(d.month) + "-" + Pad2(d.day);
    assert s[..|s| - 6] == y;
    assert s[|s| - 5..|s| - 3] == Pad2(d.month);
    assert s[|s| - 2..] == Pad2(d.day);
    s
  }

  lemma IsoDateHasNoNewline(d: Date)
    requires ValidDate(d) && d.year >= 0
    ensures NoNewline(IsoDate(d))
  {
    var y := ZeroPad(d.year, 4);
    assert IsoDate(d) == y + "-" + Pad2(d.month) + "-" + Pad2(d.day);
  }

  /** Reads back `YYYY-MM-DD` (a year of at least four digits). */
  function ParseIsoDate(s: string): Option<Date> {
    if |s| >= 10 && s[|s| - 3] == '-' && s[|s| - 6] == '-'
       && AllDigits(s[..|s| - 6]) && AllDigits(s[|s| - 5..|s| - 3]) && AllDigits(s[|s| - 2..])
    then Some(Date(ParseNat(s[..|s| - 6]), ParseNat(s[|s| - 5..|s| - 3]), ParseNat(s[|s| - 2..])))
    else None
  }

  lemma IsoDateRoundTrip(d: Date)
    requires ValidDate(d) && d.year >= 0
    ensures ParseIsoDate(IsoDate(d)) == Some(d)
  {
  }
}
