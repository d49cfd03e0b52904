/** ISO 8601 week dates: the formulas, and the calendar they are about. */
module IsoWeek {
  import opened Arith

  const DAYS_PER_WEEK: nat := 7

  // ---- The formulas

  function LeapDays(year: nat): nat
  {
    year / 4 - year / 100 + year / 400
  }

  function IsoYearWeeks(year: nat): nat
    requires year >= 1
  {
    var currP := (year + LeapDays(year)) % DAYS_PER_WEEK;
    var prevP := (year - 1 + LeapDays(year - 1)) % DAYS_PER_WEEK;
    52 + if currP == 4 || prevP == 3 then 1 else 0
  }

  function IsoWeekNum(yday: nat, wday: nat): int
    requires wday <= 6
  {
    (yday + 11 - (if wday == 0 then DAYS_PER_WEEK else wday)) / DAYS_PER_WEEK
  }

  function IsoWeekYear(year: nat, yday: nat, wday: nat): nat
    requires year >= 1 && wday <= 6
  {
    var w := IsoWeekNum(yday, wday);
    if w < 1 then year - 1 else if w > IsoYearWeeks(year) then year + 1 else year
  }

  function IsoWeekOfYear(year: nat, yday: nat, wday: nat): int
    requires year >= 1 && wday <= 6 && (IsoWeekNum(yday, wday) < 1 ==> year >= 2)
  {
    var w := IsoWeekNum(yday, wday);
    if w < 1 then IsoYearWeeks(year - 1) else if w > IsoYearWeeks(year) then 1 else w
  }

  // ---- The calendar

  predicate IsLeap(year: nat)
  {
    year % 4 == 0 && (year % 100 != 0 || year % 400 == 0)
  }

  function YearLength(year: nat): nat
  {
    if IsLeap(year) then 366 else 365
  }

  /** Days from the first day of year 1, a Monday, to the first day of a year. */
  function FirstDay(year: nat): nat
    requires year >= 1
  {
    if year == 1 then 0 else FirstDay(year - 1) + YearLength(year - 1)
  }

  /** The day of the week, 0 for Sunday. */
  function Weekday(day: nat): nat
  {
    (day + 1) % 7
  }

  predicate IsThursday(day: nat)
  {
    Weekday(day) == 4
  }

  /** The Thursday of the week, Monday to Sunday, of a day. */
  function ThursdayOf(day: nat): (t: nat)
    ensures IsThursday(t) && t / 7 == day / 7
  {
    day / 7 * 7 + 3
  }

  function ThursdaysBetween(lo: nat, hi: nat): nat
    requires lo <= hi
  {
    if lo == hi then 0 else ThursdaysBetween(lo, hi - 1) + if IsThursday(hi - 1) then 1 else 0
  }

  lemma {:induction false} ThursdaysCounted(lo: nat, hi: nat)
    requires lo <= hi
    ensures ThursdaysBetween(lo, hi) == (hi + 3) / 7 - (lo + 3) / 7
  {
    hide IsThursday;
    if lo < hi {
      ThursdaysCounted(lo, hi - 1);
      QuotientStep(hi + 3, 7);
      ThursdayBefore(hi);
    }
  }

  lemma ThursdayBefore(hi: nat)
    requires hi >= 1
    ensures IsThursday(hi - 1) <==> (hi + 3) % 7 == 0
  {
    DivMod(hi, 7);
    var q, r := hi / 7, hi % 7;
    DivModUnique(hi + 3, 7, if r >= 4 then q + 1 else q, if r >= 4 then r - 4 else r + 3);
  }

  lemma {:induction false} ThursdaysSplit(lo: nat, mid: nat, hi: nat)
    requires lo <= mid <= hi
    ensures ThursdaysBetween(lo, hi) == ThursdaysBetween(lo, mid) + ThursdaysBetween(mid, hi)
    decreases hi
  {
    if mid < hi {
      ThursdaysSplit(lo, mid, hi - 1);
    }
  }

  /** A Thursday is the only one in the six days around it on either side. */
  lemma {:induction false} NoOtherThursday(t: nat, lo: nat, hi: nat)
    requires IsThursday(t) && lo <= hi && ((t < lo && hi <= t + 7) || (hi <= t && t <= lo + 6))
    ensures ThursdaysBetween(lo, hi) == 0
    decreases hi
  {
    if lo < hi {
      NoOtherThursday(t, lo, hi - 1);
    }
  }

  lemma {:induction false} FirstDayFormula(year: nat)
    requires year >= 1
    ensures FirstDay(year) == 365 * (year - 1) + LeapDays(year - 1)
  {
    if year > 1 {
      FirstDayFormula(year - 1);
      LeapStep(year - 1);
    }
  }

  lemma LeapStep(year: nat)
    requires year >= 1
    ensures LeapDays(year) == LeapDays(year - 1) + if IsLeap(year) then 1 else 0
  {
    QuotientStep(year, 4);
    QuotientStep(year, 100);
    QuotientStep(year, 400);
    Multiples(year);
  }

  lemma Multiples(year: nat)
    ensures year % 400 == 0 ==> year % 100 == 0
    ensures year % 100 == 0 ==> year % 4 == 0
  {
    DivMod(year, 400);
    DivMod(year, 100);
    if year % 400 == 0 {
      DivModUnique(year, 100, 4 * (year / 400), 0);
    }
    if year % 100 == 0 {
      DivModUnique(year, 4, 25 * (year / 100), 0);
    }
  }

  lemma QuotientStep(n: nat, d: nat)
    requires n >= 1 && d > 1
    ensures n / d == (n - 1) / d + if n % d == 0 then 1 else 0
  {
    DivMod(n - 1, d);
    var q, r := (n - 1) / d, (n - 1) % d;
    if r == d - 1 {
      Distribute(d, q, 1);
      DivModUnique(n, d, q + 1, 0);
    } else {
      DivModUnique(n, d, q, r + 1);
    }
  }

  /** The sums in the formulas are the days of the week on which the year and the next one begin. */
  lemma IsoYearWeeksByWeekday(year: nat)
    requires year >= 1
    ensures FirstDay(year + 1) == FirstDay(year) + YearLength(year)
    ensures IsoYearWeeks(year) == 52 + if FirstDay(year + 1) % 7 == 4 || FirstDay(year) % 7 == 3 then 1 else 0
  {
    hide LeapDays, YearLength;
    FirstDayFormula(year);
    FirstDayFormula(year + 1);
    WholeWeeks(year, LeapDays(year));
    WholeWeeks(year - 1, LeapDays(year - 1));
  }

  lemma WholeWeeks(years: nat, leapDays: nat)
    ensures (365 * years + leapDays) % 7 == (years + leapDays) % 7
  {
    DivMod(years + leapDays, 7);
    var q, r := (years + leapDays) / 7, (years + leapDays) % 7;
    DivModUnique(365 * years + leapDays, 7, 52 * years + q, r);
  }

  lemma LeapDaysAreDays(year: nat)
    ensures YearLength(year) == 365 || YearLength(year) == 366
  {}

  /** The year has as many weeks as it has Thursdays. */
  lemma IsoYearWeeksIsThursdays(year: nat)
    requires year >= 1
    ensures FirstDay(year) <= FirstDay(year + 1)
    ensures IsoYearWeeks(year) == ThursdaysBetween(FirstDay(year), FirstDay(year + 1))
  {
    hide IsoYearWeeks, FirstDay, YearLength;
    IsoYearWeeksByWeekday(year);
    LeapDaysAreDays(year);
    ThursdaysCounted(FirstDay(year), FirstDay(year + 1));
  }

  /** The week number counts the Thursdays of the year up to the one of the day's week. */
  lemma WeekNumCounts(first: nat, yday: nat, wday: nat)
    requires wday == Weekday(first + yday)
    ensures var t := ThursdayOf(first + yday);
      IsoWeekNum(yday, wday) == if t < first then 0 else ThursdaysBetween(first, t + 1)
  {
    hide ThursdaysBetween;
    var n := first + yday;
    var t := ThursdayOf(n);
    DivMod(n, 7);
    DivMod(first, 7);
    var w, d, q, a := n / 7, n % 7, first / 7, first % 7;
    var late := if a <= 3 then 1 else 0;
    WeekdayOf(n);
    DivModUnique(yday + 10 - d, 7, w - q + late, 10 - a - 7 * late);
    if t >= first {
      ThursdaysCounted(first, t + 1);
      DivModUnique(t + 4, 7, w + 1, 0);
      DivModUnique(first + 3, 7, q + 1 - late, a + 3 - 7 * (1 - late));
    }
  }

  /** Monday to Sunday are 1 to 6 and 0. */
  lemma WeekdayOf(n: nat)
    ensures Weekday(n) == if n % 7 == 6 then 0 else n % 7 + 1
  {
    DivMod(n, 7);
    var q, r := n / 7, n % 7;
    DivModUnique(n + 1, 7, if r == 6 then q + 1 else q, if r == 6 then 0 else r + 1);
  }

  /**
    For a day of the year with its right day of the week, the two functions give the year its week's
    Thursday lies in, and which of that year's Thursdays that is.
   */
  lemma IsoWeekIsThursdays(year: nat, yday: nat, wday: nat)
    requires year >= 1 && yday < YearLength(year) && wday == Weekday(FirstDay(year) + yday)
    ensures IsoWeekNum(yday, wday) < 1 ==> year >= 2
    ensures var t, y := ThursdayOf(FirstDay(year) + yday), IsoWeekYear(year, yday, wday);
      && y >= 1 && FirstDay(y) <= t < FirstDay(y + 1)
      && IsoWeekOfYear(year, yday, wday) == ThursdaysBetween(FirstDay(y), t + 1)
  {
    hide YearLength, ThursdaysBetween, IsoYearWeeks, IsoWeekNum, IsThursday, FirstDay, Weekday, ThursdayOf;
    var first, next := FirstDay(year), FirstDay(year + 1);
    var t := ThursdayOf(first + yday);
    NearThursday(first + yday);
    IsoYearWeeksByWeekday(year);
    IsoYearWeeksIsThursdays(year);
    WeekNumCounts(first, yday, wday);
    if t < first {
      FirstYear();
      IsoYearWeeksByWeekday(year - 1);
      IsoYearWeeksIsThursdays(year - 1);
      LeapDaysAreDays(year - 1);
      ThursdaysSplit(FirstDay(year - 1), t + 1, first);
      NoOtherThursday(t, t + 1, first);
    } else if t < next {
      ThursdaysSplit(first, t + 1, next);
      OneThursday(t);
      ThursdaysSplit(first, t, t + 1);
    } else {
      IsoYearWeeksByWeekday(year + 1);
      LeapDaysAreDays(year + 1);
      ThursdaysSplit(first, next, t + 1);
      ThursdaysSplit(next, t, t + 1);
      NoOtherThursday(t, next, t);
      OneThursday(t);
    }
  }

  lemma NearThursday(n: nat)
    ensures var t := ThursdayOf(n); IsThursday(t) && t <= n + 3 && n <= t + 3 && t >= 3
  {
    DivMod(n, 7);
  }

  lemma OneThursday(t: nat)
    requires IsThursday(t)
    ensures ThursdaysBetween(t, t + 1) == 1
  {}

  lemma FirstYear()
    ensures FirstDay(1) == 0
  {}
}
