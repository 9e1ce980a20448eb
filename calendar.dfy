/** Day-granularity calendar arithmetic standing in for JavaScript `Date` and
    the date-fns ISO week functions (`getISOWeekYear`, `getISOWeek`,
    `startOfISOWeek`, `endOfISOWeek`, `subWeeks`).

    A day is a natural number: the days elapsed since 0001-01-01 of the
    proleptic Gregorian calendar, which was a Monday. ISO 8601 week numbering
    (weeks run Monday to Sunday; week 1 of a year is the week that contains
    4 January) is defined here directly with integer arithmetic. */
module Calendar {
  import opened Arithmetic

  /** Days since 0001-01-01 (a Monday). */
  type Day = nat

  // ---------------------------------------------------------------------
  // Gregorian years
  // ---------------------------------------------------------------------

  predicate IsLeapYear(y: int) {
    y % 4 == 0 && (y % 100 != 0 || y % 400 == 0)
  }

  function DaysInYear(y: int): nat {
    if IsLeapYear(y) then 366 else 365
  }

  /** The day number of 1 January of year `y`. */
  function YearStart(y: int): (r: int)
    requires y >= 1
    ensures r >= 365 * (y - 1)
  {
    var n := y - 1;
    365 * n + n / 4 - n / 100 + n / 400
  }

  lemma YearStartStep(y: int)
    requires y >= 1
    ensures YearStart(y + 1) == YearStart(y) + DaysInYear(y)
  {
    DivStep(y - 1, 4);
    DivStep(y - 1, 100);
    DivStep(y - 1, 400);
  }

  lemma {:induction false} YearStartMonotone(a: int, b: int)
    requires 1 <= a <= b
    ensures YearStart(a) + 365 * (b - a) <= YearStart(b)
    decreases b - a
  {
    if a < b {
      YearStartMonotone(a, b - 1);
      YearStartStep(b - 1);
    }
  }

  /** The calendar year `y >= from` whose 1 January is the last one not after `d`. */
  function YearFrom(from: int, d: int): (y: int)
    requires from >= 1 && YearStart(from) <= d
    ensures y >= from && YearStart(y) <= d < YearStart(y + 1)
    decreases d - YearStart(from)
  {
    if d < YearStart(from + 1) then from
    else
      YearStartStep(from);
      YearFrom(from + 1, d)
  }

  /** `date.getFullYear()` */
  function CalendarYear(d: Day): (y: int)
    ensures y >= 1 && YearStart(y) <= d < YearStart(y + 1)
  {
    YearFrom(1, d)
  }

  lemma CalendarYearUnique(y: int, d: Day)
    requires y >= 1 && YearStart(y) <= d < YearStart(y + 1)
    ensures CalendarYear(d) == y
  {
    var r := CalendarYear(d);
    if r < y {
      YearStartMonotone(r + 1, y);
    } else if r > y {
      YearStartMonotone(y + 1, r);
    }
  }

  /** The number of days in each month of year `y`. */
  function MonthLength(y: int, m: int): nat
    requires 1 <= m <= 12
  {
    if m == 2 then (if IsLeapYear(y) then 29 else 28)
    else if m == 4 || m == 6 || m == 9 || m == 11 then 30
    else 31
  }

  /** Days of year `y` before the first of month `m`. */
  function DaysBeforeMonth(y: int, m: int): nat
    requires 1 <= m <= 12
  {
    if m == 1 then 0 else DaysBeforeMonth(y, m - 1) + MonthLength(y, m - 1)
  }

  /** The day number of the date `y`-`m`-`dd` (`new Date(y, m - 1, dd)`). */
  function DayOfDate(y: int, m: int, dd: int): Day
    requires y >= 1 && 1 <= m <= 12 && 1 <= dd <= MonthLength(y, m)
  {
    YearStart(y) + DaysBeforeMonth(y, m) + dd - 1
  }

  // ---------------------------------------------------------------------
  // Weekdays
  // ---------------------------------------------------------------------

  /** ISO weekday counted from 0: 0 is Monday, 6 is Sunday. */
  function Weekday(d: int): nat {
    d % 7
  }

  /** `date.getDay()`: 0 is Sunday, 6 is Saturday. */
  function JsGetDay(d: int): nat {
    (Weekday(d) + 1) % 7
  }

  // ---------------------------------------------------------------------
  // ISO 8601 week numbering
  // ---------------------------------------------------------------------

  function Jan4(y: int): int
    requires y >= 1
  {
    YearStart(y) + 3
  }

  /** The Monday that starts ISO week 1 of year `y`: the Monday on or before 4 January. */
  function Week1Monday(y: int): (m: Day)
    requires y >= 1
    ensures Weekday(m) == 0
    ensures m <= Jan4(y) < m + 7
  {
    var j := Jan4(y);
    var q := j / 7;
    assert j - Weekday(j) == 7 * q;
    MultipleOfSeven(q);
    7 * q
  }

  lemma MultipleOfSeven(q: int)
    ensures Weekday(7 * q) == 0
  {
  }

  /** Consecutive week-1 Mondays lie 52 or 53 weeks apart. */
  lemma Week1MondayStep(y: int)
    requires y >= 1
    ensures Week1Monday(y + 1) - Week1Monday(y) == 364
         || Week1Monday(y + 1) - Week1Monday(y) == 371
  {
    YearStartStep(y);
    var a, b := Week1Monday(y), Week1Monday(y + 1);
    assert a == 7 * (Jan4(y) / 7);
    assert b == 7 * (Jan4(y + 1) / 7);
    var k := Jan4(y + 1) / 7 - Jan4(y) / 7;
    assert b - a == 7 * k;
    assert 358 < 7 * k < 373;
  }

  lemma {:induction false} Week1MondayMonotone(a: int, b: int)
    requires 1 <= a <= b
    ensures Week1Monday(a) + 364 * (b - a) <= Week1Monday(b)
    decreases b - a
  {
    if a < b {
      Week1MondayMonotone(a, b - 1);
      Week1MondayStep(b - 1);
    }
  }

  /** The number of ISO weeks in year `y`. */
  function WeeksInYear(y: int): (n: int)
    requires y >= 1
    ensures n == 52 || n == 53
    ensures Week1Monday(y + 1) == Week1Monday(y) + 7 * n
  {
    Week1MondayStep(y);
    (Week1Monday(y + 1) - Week1Monday(y)) / 7
  }

  /** The ISO week-numbering year `y >= from` whose week 1 starts last on or before `d`. */
  function IsoYearFrom(from: int, d: int): (y: int)
    requires from >= 1 && Week1Monday(from) <= d
    ensures y >= from && Week1Monday(y) <= d < Week1Monday(y + 1)
    decreases d - Week1Monday(from)
  {
    var next := Week1Monday(from + 1);
    if d < next then from
    else
      Week1MondayStep(from);
      assert d - next < d - Week1Monday(from);
      IsoYearFrom(from + 1, d)
  }

  /** `getISOWeekYear(date)` */
  function IsoYear(d: Day): (y: int)
    ensures y >= 1 && Week1Monday(y) <= d < Week1Monday(y + 1)
  {
    assert Week1Monday(1) == 0;
    IsoYearFrom(1, d)
  }

  /** A day lies in exactly one ISO week-numbering year. */
  lemma IsoYearUnique(y: int, d: Day)
    requires y >= 1 && Week1Monday(y) <= d < Week1Monday(y + 1)
    ensures IsoYear(d) == y
  {
    var r := IsoYear(d);
    if r < y {
      Week1MondayMonotone(r + 1, y);
    } else if r > y {
      Week1MondayMonotone(y + 1, r);
    }
  }

  /** `getISOWeek(date)` */
  function IsoWeek(d: Day): (w: int)
    ensures 1 <= w <= WeeksInYear(IsoYear(d))
  {
    var y := IsoYear(d);
    assert d - Week1Monday(y) < 7 * WeeksInYear(y);
    (d - Week1Monday(y)) / 7 + 1
  }

  /** The Monday of ISO week `w` of year `y`, counting on from week 1 whatever `w` is. */
  function MondayOfWeek(y: int, w: int): int
    requires y >= 1
  {
    Week1Monday(y) + (w - 1) * 7
  }

  /** `startOfISOWeek(date)` */
  function StartOfIsoWeek(d: Day): (m: Day)
    ensures Weekday(m) == 0 && m <= d < m + 7
  {
    d - Weekday(d)
  }

  /** `endOfISOWeek(date)`, at day granularity. */
  function EndOfIsoWeek(d: Day): (s: Day)
    ensures Weekday(s) == 6 && s - 6 <= d <= s
  {
    StartOfIsoWeek(d) + 6
  }

  /** Every day of ISO week `w` of year `y` has ISO year `y` and ISO week `w`. */
  lemma DaysOfIsoWeek(y: int, w: int, k: int)
    requires y >= 1 && 1 <= w <= WeeksInYear(y) && 0 <= k < 7
    ensures MondayOfWeek(y, w) + k >= 0
    ensures IsoYear(MondayOfWeek(y, w) + k) == y
    ensures IsoWeek(MondayOfWeek(y, w) + k) == w
  {
    var d := MondayOfWeek(y, w) + k;
    IsoYearUnique(y, d);
    assert d - Week1Monday(y) == (w - 1) * 7 + k;
  }

  /** Two Mondays less than a week apart are the same day. */
  lemma MondaysWithinAWeek(a: int, b: int)
    requires Weekday(a) == 0 && Weekday(b) == 0 && a <= b < a + 7
    ensures a == b
  {
    assert a == 7 * (a / 7) && b == 7 * (b / 7);
  }

  /** Whole weeks after a Monday fall on a Monday. */
  lemma MondayPlusWeeks(m: int, k: int)
    requires Weekday(m) == 0
    ensures Weekday(m + 7 * k) == 0
  {
    assert m + 7 * k == 7 * (m / 7 + k);
    MultipleOfSeven(m / 7 + k);
  }

  /** The `k`-th day after a Monday is weekday `k`. */
  lemma DayAfterMonday(m: int, k: int)
    requires Weekday(m) == 0 && 0 <= k < 7
    ensures Weekday(m + k) == k
  {
    assert m == 7 * (m / 7);
  }

  /** The week of the day seven days before `d` starts seven days before the week of `d`. */
  lemma WeekBefore(d: Day)
    requires d >= 7
    ensures StartOfIsoWeek(d) >= 7
    ensures StartOfIsoWeek(d - 7) == StartOfIsoWeek(d) - 7
    ensures StartOfIsoWeek(StartOfIsoWeek(d) - 7) == StartOfIsoWeek(d) - 7
  {
    assert d - 7 == 7 * (d / 7 - 1) + d % 7;
    MondayBeforeStartsItsWeek(StartOfIsoWeek(d));
  }

  /** The week after the week of `d` starts seven days after it. */
  lemma WeekAfter(d: Day)
    ensures StartOfIsoWeek(d + 7) == StartOfIsoWeek(d) + 7
    ensures StartOfIsoWeek(StartOfIsoWeek(d) + 7) == StartOfIsoWeek(d) + 7
  {
    assert d + 7 == 7 * (d / 7 + 1) + d % 7;
    MondayStartsItsWeek(StartOfIsoWeek(d));
  }

  /** Day `e`, a week before `d`, lies in the week that starts on `p`, the
      Monday a week before the Monday of `d`. */
  lemma WeekBeforeOf(d: Day, e: Day, p: Day)
    requires e + 7 == d && p + 7 == StartOfIsoWeek(d)
    ensures StartOfIsoWeek(p) == StartOfIsoWeek(e)
  {
    WeekBefore(d);
  }

  /** Day `e`, a week after `d`, lies in the week that starts on `n`, the
      Monday a week after the Monday of `d`. */
  lemma WeekAfterOf(d: Day, e: Day, n: Day)
    requires e == d + 7 && n == StartOfIsoWeek(d) + 7
    ensures StartOfIsoWeek(n) == StartOfIsoWeek(e)
  {
    WeekAfter(d);
  }

  /** The Monday a week before the Monday of `d`, for a day from the second week on. */
  lemma MondayBefore(d: Day) returns (p: Day)
    requires d >= 7
    ensures p + 7 == StartOfIsoWeek(d)
  {
    WeekBefore(d);
    p := StartOfIsoWeek(d) - 7;
  }

  /** The Monday a week after the Monday of `d`. */
  lemma MondayAfter(d: Day) returns (n: Day)
    ensures n == StartOfIsoWeek(d) + 7
  {
    n := StartOfIsoWeek(d) + 7;
  }

  /** A Monday is the start of its own week, and so is the Monday after it. */
  lemma MondayStartsItsWeek(m: Day)
    requires Weekday(m) == 0
    ensures StartOfIsoWeek(m) == m
    ensures StartOfIsoWeek(m + 7) == m + 7
  {
    assert m == 7 * (m / 7);
    assert m + 7 == 7 * (m / 7 + 1);
  }

  /** The Monday before a Monday starts its own week. */
  lemma MondayBeforeStartsItsWeek(m: Day)
    requires Weekday(m) == 0 && m >= 7
    ensures Weekday(m - 7) == 0
    ensures StartOfIsoWeek(m - 7) == m - 7
  {
    assert m - 7 == 7 * (m / 7 - 1);
  }

  /** `startOfISOWeek(new Date(y, 0, 4))` is the Monday of week 1. */
  lemma StartOfWeekOfJan4(y: int)
    requires y >= 1
    ensures StartOfIsoWeek(Jan4(y)) == Week1Monday(y)
  {
    MondaysWithinAWeek(Week1Monday(y), StartOfIsoWeek(Jan4(y)));
  }

  /** Later days never have an earlier ISO week-numbering year. */
  lemma IsoYearMonotone(d1: Day, d2: Day)
    requires d1 <= d2
    ensures IsoYear(d1) <= IsoYear(d2)
  {
    var y1, y2 := IsoYear(d1), IsoYear(d2);
    if y1 > y2 {
      Week1MondayMonotone(y2 + 1, y1);
    }
  }

  /** Week 1 of any year from 2 on starts at least a week after day 0. */
  lemma Week1MondayLowerBound(y: int)
    requires y >= 1
    ensures Week1Monday(y) >= 364 * (y - 1)
  {
    Week1MondayMonotone(1, y);
    assert Week1Monday(1) == 0;
  }

  /** The Monday and the Sunday of week `w` of year `y` lie in that week. */
  lemma EndsOfIsoWeek(y: int, w: int)
    requires y >= 1 && 1 <= w <= WeeksInYear(y)
    ensures MondayOfWeek(y, w) >= 0
    ensures IsoYear(MondayOfWeek(y, w)) == y && IsoWeek(MondayOfWeek(y, w)) == w
    ensures IsoYear(MondayOfWeek(y, w) + 6) == y && IsoWeek(MondayOfWeek(y, w) + 6) == w
  {
    DaysOfIsoWeek(y, w, 0);
    DaysOfIsoWeek(y, w, 6);
  }

  /** Days of the same ISO week have the same ISO year and week number. */
  lemma SameWeekSameYearAndWeek(d1: Day, d2: Day)
    requires StartOfIsoWeek(d1) == StartOfIsoWeek(d2)
    ensures IsoYear(d1) == IsoYear(d2) && IsoWeek(d1) == IsoWeek(d2)
  {
    var y, w := IsoYear(d1), IsoWeek(d1);
    IsoWeekContains(d1);
    assert d2 == MondayOfWeek(y, w) + Weekday(d2);
    DaysOfIsoWeek(y, w, Weekday(d2));
  }

  /** Counting whole weeks from a Monday lands on the Monday of the week. */
  lemma WholeWeeksFromMonday(m: int, d: int)
    requires 0 <= m <= d && Weekday(m) == 0
    ensures m + ((d - m) / 7) * 7 == d - Weekday(d)
  {
    var q, r := (d - m) / 7, (d - m) % 7;
    var p := m / 7;
    assert m == 7 * p;
    assert d == 7 * (p + q) + r;
    assert 0 <= r < 7;
  }

  /** The ISO week a day is given contains that day, from its Monday to its Sunday. */
  lemma IsoWeekContains(d: Day)
    ensures MondayOfWeek(IsoYear(d), IsoWeek(d)) == StartOfIsoWeek(d)
    ensures StartOfIsoWeek(d) <= d <= StartOfIsoWeek(d) + 6
  {
    var y := IsoYear(d);
    var m := Week1Monday(y);
    WholeWeeksFromMonday(m, d);
    assert IsoWeek(d) - 1 == (d - m) / 7;
  }
}
