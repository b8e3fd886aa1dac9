/** The proleptic Gregorian calendar as pure integer arithmetic: the calendar
    functions the date dimension derives from a sale date (year, quarter,
    month, month name, day of month, day of week, ISO week of year).

    Days are numbered from 0001-01-01 (day 0, a Monday); earlier dates have
    negative numbers, so every integer year is allowed. */
module Calendar {

  datatype Date = Date(year: int, month: int, day: int)

  predicate IsLeapYear(y: int) {
    y % 4 == 0 && (y % 100 != 0 || y % 400 == 0)
  }

  function YearLength(y: int): int {
    if IsLeapYear(y) then 366 else 365
  }

  function DaysInMonth(y: int, m: int): (n: int)
    requires 1 <= m <= 12
    ensures 28 <= n <= 31
    ensures n == 29 <==> m == 2 && IsLeapYear(y)
  {
    if m == 2 then (if IsLeapYear(y) then 29 else 28)
    else if m == 4 || m == 6 || m == 9 || m == 11 then 30
    else 31
  }

  /** A real calendar date: a month 1..12 and a day inside that month. */
  predicate Valid(d: Date) {
    1 <= d.month <= 12 && 1 <= d.day <= DaysInMonth(d.year, d.month)
  }

  type CivilDate = d: Date | Valid(d) witness Date(1970, 1, 1)

  /** Days of year y that come before the first of month m. */
  function DaysBeforeMonth(y: int, m: int): (n: int)
    requires 1 <= m <= 12
    ensures m == 1 ==> n == 0
    ensures 0 <= n && n + DaysInMonth(y, m) <= YearLength(y)
    ensures m == 12 ==> n + DaysInMonth(y, m) == YearLength(y)
  {
    var common :=
      if m == 1 then 0 else if m == 2 then 31 else if m == 3 then 59
      else if m == 4 then 90 else if m == 5 then 120 else if m == 6 then 151
      else if m == 7 then 181 else if m == 8 then 212 else if m == 9 then 243
      else if m == 10 then 273 else if m == 11 then 304 else 334;
    common + (if m > 2 && IsLeapYear(y) then 1 else 0)
  }

  /** Each month begins where the previous one ends. */
  lemma DaysBeforeMonthStep(y: int, m: int)
    requires 1 <= m < 12
    ensures DaysBeforeMonth(y, m + 1) == DaysBeforeMonth(y, m) + DaysInMonth(y, m)
  {
  }

  /** Day number of January 1st of year y. */
  function YearStart(y: int): int {
    365 * (y - 1) + (y - 1) / 4 - (y - 1) / 100 + (y - 1) / 400
  }

  lemma FloorStep(y: int, k: int)
    requires k == 4 || k == 100 || k == 400
    ensures y / k - (y - 1) / k == (if y % k == 0 then 1 else 0)
  {
  }

  lemma MultipleOf100(y: int)
    requires y % 100 == 0
    ensures y % 4 == 0
  {
    assert y == 4 * (25 * (y / 100));
  }

  lemma MultipleOf400(y: int)
    requires y % 400 == 0
    ensures y % 100 == 0
  {
    assert y == 100 * (4 * (y / 400));
  }

  /** A year is a leap year by the count of 4-, 100- and 400-multiples it is. */
  lemma LeapCount(y: int)
    ensures (if IsLeapYear(y) then 1 else 0)
            == (if y % 4 == 0 then 1 else 0) - (if y % 100 == 0 then 1 else 0) + (if y % 400 == 0 then 1 else 0)
  {
    if y % 400 == 0 {
      MultipleOf400(y);
      MultipleOf100(y);
    } else if y % 100 == 0 {
      MultipleOf100(y);
    }
  }

  /** Consecutive year starts are one year length apart. */
  lemma YearStartStep(y: int)
    ensures YearStart(y + 1) == YearStart(y) + YearLength(y)
  {
    YearStartDrift(y);
    YearStartDrift(y + 1);
    DriftStep(y);
  }

  /** Day number of a valid date; it lies inside its own year. */
  function DayNumber(d: CivilDate): (n: int)
    ensures YearStart(d.year) <= n < YearStart(d.year + 1)
  {
    YearStartStep(d.year);
    YearStart(d.year) + DaysBeforeMonth(d.year, d.month) + d.day - 1
  }

  /** 1-based ordinal of a date inside its year. */
  function DayOfYear(d: CivilDate): (n: int)
    ensures 1 <= n <= YearLength(d.year)
    ensures YearStart(d.year) + n - 1 == DayNumber(d)
  {
    YearStartStep(d.year);
    DayNumber(d) - YearStart(d.year) + 1
  }

  /** ISO weekday of a day number: 1 = Monday ... 7 = Sunday. */
  function IsoWeekday(n: int): (w: int)
    ensures 1 <= w <= 7
  {
    n % 7 + 1
  }

  /** Day of week in Spark's convention: 1 = Sunday, 2 = Monday ... 7 = Saturday. */
  function DayOfWeek(d: CivilDate): (w: int)
    ensures 1 <= w <= 7
    ensures w == 1 <==> IsoWeekday(DayNumber(d)) == 7
    ensures w == 7 <==> IsoWeekday(DayNumber(d)) == 6
    ensures 2 <= w <= 6 <==> IsoWeekday(DayNumber(d)) <= 5
  {
    IsoWeekday(DayNumber(d)) % 7 + 1
  }

  /** Calendar quarter of a month. */
  function Quarter(m: int): (q: int)
    requires 1 <= m <= 12
    ensures 1 <= q <= 4
    ensures 3 * q - 2 <= m <= 3 * q
  {
    (m - 1) / 3 + 1
  }

  /** Full English month name (the pattern 'MMMM' in an English locale). */
  function MonthName(m: int): (s: string)
    requires 1 <= m <= 12
  {
    ["January", "February", "March", "April", "May", "June", "July",
     "August", "September", "October", "November", "December"][m - 1]
  }

  lemma MonthNamesDistinct(m1: int, m2: int)
    requires 1 <= m1 <= 12 && 1 <= m2 <= 12
    ensures MonthName(m1) == MonthName(m2) <==> m1 == m2
  {
  }

  /** 53 when the year begins or ends on a Thursday, otherwise 52. */
  function WeeksInYear(y: int): (n: int)
    ensures n == 52 || n == 53
  {
    WeeksBetween(YearStart(y), YearStart(y + 1))
  }

  /** ISO week of year computed from the ordinal day and the weekday, with the
      usual corrections for days that belong to the neighbouring year's weeks. */
  function WeekOfYear(d: CivilDate): (w: int)
    ensures 1 <= w <= 53
  {
    var raw := (DayOfYear(d) - IsoWeekday(DayNumber(d)) + 10) / 7;
    if raw < 1 then WeeksInYear(d.year - 1)
    else if raw > WeeksInYear(d.year) then 1
    else raw
  }

  // ---------------------------------------------------------------------
  // Reference definitions

  /** The Thursday of the Monday-to-Sunday week that holds day n. */
  function ThursdayOf(n: int): (t: int)
    ensures IsoWeekday(t) == 4
    ensures n - 3 <= t <= n + 3
  {
    n - IsoWeekday(n) + 4
  }

  /** The year that holds the Thursday of d's week (the ISO week-based year). */
  function WeekBasedYear(d: CivilDate): (y: int)
    ensures YearStart(y) <= ThursdayOf(DayNumber(d)) < YearStart(y + 1)
    ensures d.year - 1 <= y <= d.year + 1
    ensures ThursdayOf(DayNumber(d)) < YearStart(d.year) ==> y == d.year - 1
    ensures ThursdayOf(DayNumber(d)) >= YearStart(d.year + 1) ==> y == d.year + 1
  {
    ThursdayNearYear(d);
    var t := ThursdayOf(DayNumber(d));
    if t < YearStart(d.year) then d.year - 1
    else if t >= YearStart(d.year + 1) then d.year + 1
    else d.year
  }

  /** The Thursday of d's week falls at most in a neighbouring year. */
  lemma ThursdayNearYear(d: CivilDate)
    ensures YearStart(d.year - 1) <= ThursdayOf(DayNumber(d)) < YearStart(d.year + 2)
  {
    YearStartStep(d.year - 1);
    YearStartStep(d.year + 1);
  }

  /** ISO 8601 week number: weeks run Monday to Sunday, a week belongs to the
      year holding its Thursday, and week 1 is the week of that year's first
      Thursday. */
  function IsoWeek(d: CivilDate): int {
    (ThursdayOf(DayNumber(d)) - YearStart(WeekBasedYear(d))) / 7 + 1
  }

  lemma SameWeekday(a: int, b: int)
    requires IsoWeekday(a) == IsoWeekday(b)
    ensures (a - b) % 7 == 0
  {
  }

  /** A Thursday in the last three days before year start b belongs to the
      previous year's last week, numbered by that year's week count. */
  lemma WeekAcrossYearStart(t: int, a: int, b: int)
    requires b - a == 365 || b - a == 366
    requires b - 3 <= t < b && IsoWeekday(t) == 4
    ensures (t - a) / 7 + 1 == WeeksBetween(a, b)
  {
    if IsoWeekday(a) == 4 {
      SameWeekday(t, a);
    } else if IsoWeekday(b - 1) == 4 {
      SameWeekday(b - 1, t);
    } else if t - a >= 364 {
      if t - a == 364 {
        SameWeekday(t, a);
      }
    }
  }

  /** A Thursday in the first three days of the year after [a, b) lies past
      the last week of [a, b). */
  lemma WeekPastYearEnd(t: int, a: int, b: int)
    requires b - a == 365 || b - a == 366
    requires b <= t < b + 3 && IsoWeekday(t) == 4
    ensures (t - a) / 7 + 1 > WeeksBetween(a, b)
  {
    if IsoWeekday(a) == 4 {
      SameWeekday(t, a);
    }
    if IsoWeekday(b - 1) == 4 {
      SameWeekday(t, b - 1);
    }
  }

  /** A Thursday inside [a, b) never gets a week number past the year's count. */
  lemma WeekInsideYear(t: int, a: int, b: int)
    requires b - a == 365 || b - a == 366
    requires a <= t < b && IsoWeekday(t) == 4
    ensures 1 <= (t - a) / 7 + 1 <= WeeksBetween(a, b)
  {
    if t - a >= 364 {
      if t - a == 364 {
        SameWeekday(t, a);
      } else {
        assert t == b - 1;
      }
    }
  }

  /** The Thursday of a year's last seven days numbers the year's last week. */
  lemma LastThursday(t: int, a: int, b: int)
    requires b - a == 365 || b - a == 366
    requires b - 7 <= t < b && IsoWeekday(t) == 4
    ensures (t - a) / 7 + 1 == WeeksBetween(a, b)
  {
    WeekInsideYear(t, a, b);
    if IsoWeekday(a) == 4 {
      SameWeekday(t, a);
    } else if IsoWeekday(b - 1) == 4 {
      SameWeekday(b - 1, t);
    }
  }

  /** Week count of the year [a, b) in terms of its first and last day numbers. */
  function WeeksBetween(a: int, b: int): int {
    if IsoWeekday(a) == 4 || IsoWeekday(b - 1) == 4 then 53 else 52
  }

  /** The ordinal rule on the Thursday t of a week, for the year [b, c)
      between [a, b) and [c, _): weeks counted from b, with the corrections
      for the neighbouring years. */
  function OrdinalRule(t: int, a: int, b: int, c: int): int {
    var raw := (t - b) / 7 + 1;
    if raw < 1 then WeeksBetween(a, b) else if raw > WeeksBetween(b, c) then 1 else raw
  }

  /** The Thursday rule: weeks counted from the start of the year holding t. */
  function ThursdayRule(t: int, a: int, b: int, c: int): int {
    (t - (if t < b then a else if t >= c then c else b)) / 7 + 1
  }

  /** The two rules agree on the Thursday of every week that meets [b, c). */
  lemma WeekRulesAgree(t: int, a: int, b: int, c: int)
    requires b - a == 365 || b - a == 366
    requires c - b == 365 || c - b == 366
    requires b - 3 <= t < c + 3 && IsoWeekday(t) == 4
    ensures OrdinalRule(t, a, b, c) == ThursdayRule(t, a, b, c)
  {
    if t < b {
      WeekAcrossYearStart(t, a, b);
    } else if t >= c {
      WeekPastYearEnd(t, b, c);
    } else {
      WeekInsideYear(t, b, c);
    }
  }

  /** WeekOfYear is the ordinal rule on the Thursday of d's week. */
  lemma OrdinalWeek(d: CivilDate)
    ensures WeekOfYear(d) == OrdinalRule(ThursdayOf(DayNumber(d)), YearStart(d.year - 1), YearStart(d.year), YearStart(d.year + 1))
  {
    var n := DayNumber(d);
    assert DayOfYear(d) - IsoWeekday(n) + 10 == ThursdayOf(n) - YearStart(d.year) + 7;
  }

  /** IsoWeek is the Thursday rule on the Thursday of d's week. */
  lemma ThursdayWeek(d: CivilDate)
    ensures IsoWeek(d) == ThursdayRule(ThursdayOf(DayNumber(d)), YearStart(d.year - 1), YearStart(d.year), YearStart(d.year + 1))
  {
    var t := ThursdayOf(DayNumber(d));
    var a, b, c := YearStart(d.year - 1), YearStart(d.year), YearStart(d.year + 1);
    var wy := WeekBasedYear(d);
    assert YearStart(wy) == (if t < b then a else if t >= c then c else b) by {
      if t < b {
        assert wy == d.year - 1;
      } else if t >= c {
        assert wy == d.year + 1;
      } else {
        assert wy == d.year;
      }
    }
    assert IsoWeek(d) == (t - YearStart(wy)) / 7 + 1;
  }

  /** The ordinal formula equals the Thursday rule, so WeekOfYear is the ISO week. */
  lemma WeekOfYearIsIsoWeek(d: CivilDate)
    ensures WeekOfYear(d) == IsoWeek(d)
  {
    YearStartStep(d.year - 1);
    YearStartStep(d.year);
    OrdinalWeek(d);
    ThursdayWeek(d);
    WeekRulesAgree(ThursdayOf(DayNumber(d)), YearStart(d.year - 1), YearStart(d.year), YearStart(d.year + 1));
  }

  /** The week count of a year is the ISO week number of its December 28th,
      the day that always falls in the year's last ISO week. */
  lemma WeeksInYearIsLastWeek(y: int)
    ensures Valid(Date(y, 12, 28))
    ensures IsoWeek(Date(y, 12, 28)) == WeeksInYear(y)
  {
    var d: CivilDate := Date(y, 12, 28);
    YearStartStep(y);
    assert DayNumber(d) == YearStart(y + 1) - 4;
    LastThursday(ThursdayOf(DayNumber(d)), YearStart(y), YearStart(y + 1));
  }

  /** Later years start later. */
  lemma {:induction false} YearStartIncreasing(x: int, y: int)
    requires x <= y
    ensures YearStart(x) <= YearStart(y)
    decreases y - x
  {
    if x < y {
      YearStartStep(x);
      YearStartIncreasing(x + 1, y);
    }
  }

  /** A month ends no later than any later month begins. */
  lemma {:induction false} MonthsInOrder(y: int, m1: int, m2: int)
    requires 1 <= m1 < m2 <= 12
    ensures DaysBeforeMonth(y, m1) + DaysInMonth(y, m1) <= DaysBeforeMonth(y, m2)
    decreases m2 - m1
  {
    DaysBeforeMonthStep(y, m1);
    if m1 + 1 < m2 {
      MonthsInOrder(y, m1 + 1, m2);
    }
  }

  /** Zeller's congruence: 0 = Saturday, 1 = Sunday ... 6 = Friday, with
      January and February counted as months 13 and 14 of the previous year. */
  function Zeller(d: CivilDate): (h: int)
    ensures 0 <= h < 7
  {
    var m := if d.month < 3 then d.month + 12 else d.month;
    var yy := if d.month < 3 then d.year - 1 else d.year;
    var k := yy % 100;
    var j := yy / 100;
    (d.day + 13 * (m + 1) / 5 + k + k / 4 + j / 4 + 5 * j) % 7
  }

  /** y + y/4 - y/100 + y/400: the day-number drift of year y modulo 7. */
  function Drift(y: int): int {
    y + y / 4 - y / 100 + y / 400
  }

  lemma DriftCentury(y: int)
    ensures (Drift(y) - (y % 100 + (y % 100) / 4 + (y / 100) / 4 + 5 * (y / 100))) % 7 == 0
  {
    var j := y / 100;
    var k := y % 100;
    assert y == 100 * j + k;
    assert y / 4 == 25 * j + k / 4;
    assert y / 400 == j / 4;
    assert Drift(y) == 124 * j + k + k / 4 + j / 4;
  }

  lemma YearStartDrift(y: int)
    ensures YearStart(y) == 364 * (y - 1) + Drift(y - 1)
  {
  }

  /** Zeller's month term 13 (m + 1) / 5 matches the days before the month, modulo 7. */
  lemma ZellerMonthTerm(y: int, m: int)
    requires 1 <= m <= 12
    ensures var mm := if m < 3 then m + 12 else m;
            var leap := if m > 2 && IsLeapYear(y) then 1 else 0;
            (DaysBeforeMonth(y, m) - leap - 13 * (mm + 1) / 5 + (if m < 3 then 1 else 0)) % 7 == 0
  {
  }

  lemma WeekdayFromResidue(n: int, h: int)
    requires 0 <= h < 7
    requires (n - (h - 2)) % 7 == 0
    ensures IsoWeekday(n) % 7 + 1 == (h + 6) % 7 + 1
  {
  }

  lemma MultiplesOfSeven(a: int, b: int, c: int)
    requires a % 7 == 0 && b % 7 == 0 && c % 7 == 0
    ensures (a + b + c) % 7 == 0
  {
  }

  lemma SevenTimesPlus(a: int, b: int)
    requires b % 7 == 0
    ensures (7 * a + b) % 7 == 0
  {
  }

  lemma ResidueRemoved(x: int)
    ensures (x - x % 7) % 7 == 0
  {
  }

  lemma DriftStep(y: int)
    ensures Drift(y) == Drift(y - 1) + 1 + (if IsLeapYear(y) then 1 else 0)
  {
    FloorStep(y, 4);
    FloorStep(y, 100);
    FloorStep(y, 400);
    LeapCount(y);
  }

  /** Zeller's year argument (the previous year for January and February). */
  function ZellerYear(d: CivilDate): int {
    if d.month < 3 then d.year - 1 else d.year
  }

  /** Zeller's month term 13 (m + 1) / 5, January and February counted as 13 and 14. */
  function ZellerMonth(d: CivilDate): int {
    13 * ((if d.month < 3 then d.month + 12 else d.month) + 1) / 5
  }

  /** The day number is the Zeller sum, up to a constant, modulo 7. */
  lemma DayNumberResidue(d: CivilDate)
    ensures (DayNumber(d) - (d.day + ZellerMonth(d) + Drift(ZellerYear(d)) - 2)) % 7 == 0
  {
    var y, m := d.year, d.month;
    var leap := if m > 2 && IsLeapYear(y) then 1 else 0;
    YearStartDrift(y);
    DriftStep(y);
    var monthTerm := DaysBeforeMonth(y, m) - leap - ZellerMonth(d) + (if m < 3 then 1 else 0);
    ZellerMonthTerm(y, m);
    assert DayNumber(d) - (d.day + ZellerMonth(d) + Drift(ZellerYear(d)) - 2) == 7 * (52 * (y - 1)) + monthTerm;
    SevenTimesPlus(52 * (y - 1), monthTerm);
  }

  /** Spark's day of week agrees with Zeller's congruence on every date. */
  lemma DayOfWeekMatchesZeller(d: CivilDate)
    ensures DayOfWeek(d) == (Zeller(d) + 6) % 7 + 1
  {
    var yy := ZellerYear(d);
    var k, j := yy % 100, yy / 100;
    var zs := k + k / 4 + j / 4 + 5 * j;
    var sum := d.day + ZellerMonth(d) + zs;
    var h := sum % 7;
    assert Zeller(d) == h;
    DayNumberResidue(d);
    DriftCentury(yy);
    ResidueRemoved(sum);
    MultiplesOfSeven(DayNumber(d) - (d.day + ZellerMonth(d) + Drift(yy) - 2), Drift(yy) - zs, sum - h);
    WeekdayFromResidue(DayNumber(d), h);
  }

  /** Sale on 2024-03-09, a Saturday in ISO week 10 of the first quarter. */
  lemma SaturdayExample()
    ensures Valid(Date(2024, 3, 9))
    ensures DayOfWeek(Date(2024, 3, 9)) == 7
    ensures WeekOfYear(Date(2024, 3, 9)) == 10
    ensures Quarter(3) == 1 && MonthName(3) == "March"
  {
  }
}
