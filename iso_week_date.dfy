/** The date-fns pieces the streak calculation leans on: `parseISO` on an ISO
    week date `YYYY-Www-D`, `subWeeks`, and `getWeekId` of a date that may be
    invalid. */
module IsoWeekDates {
  import opened Wrappers
  import opened Text
  import opened Calendar
  import opened Scoring

  /** `parseISO(s)` for the week-date form `YYYY-Www-D`: the day `D` (1 = Monday)
      of ISO week `ww`, counted on from week 1 of year `YYYY`. Any other text,
      and a year, week or weekday out of range, is an Invalid Date (None). */
  function ParseIsoWeekDate(s: string): (r: Option<Day>)
    ensures r.Some? ==> |s| == 10 && IsDigit(s[9]) && 1 <= DigitValue(s[9]) <= 7
    ensures r.Some? ==> Weekday(r.value) == DigitValue(s[9]) - 1
  {
    if |s| == 10 && AllDigits(s[..4]) && s[4] == '-' && s[5] == 'W'
       && AllDigits(s[6..8]) && s[8] == '-' && IsDigit(s[9])
    then
      var year, week, day := DecValue(s[..4]), DecValue(s[6..8]), DigitValue(s[9]);
      if year >= 1 && 1 <= week <= 53 && 1 <= day <= 7 then
        MondayPlusWeeks(Week1Monday(year), week - 1);
        DayAfterMonday(MondayOfWeek(year, week), day - 1);
        Some(MondayOfWeek(year, week) + day - 1)
      else None
    else None
  }

  /** `subWeeks(date, -k)`, that is `k` weeks later; stepping before day 0 is
      outside the model and yields None. */
  function ShiftWeeks(date: Option<Day>, k: int): Option<Day> {
    if date.Some? && date.value + 7 * k >= 0 then Some(date.value + 7 * k) else None
  }

  /** `getWeekId(date)` where the date may be an Invalid Date: NaN prints as "NaN". */
  function WeekIdOf(date: Option<Day>): string {
    if date.Some? then GetWeekId(date.value) else "NaN-WNaN"
  }

  /** `getWeekId(subWeeks(parseISO(id + '-1'), 1))`: the label of the week before. */
  function PreviousWeekId(id: string): string {
    WeekIdOf(ShiftWeeks(ParseIsoWeekDate(id + "-1"), -1))
  }

  /** `getWeekId(subWeeks(parseISO(id + '-1'), -1))`: the label of the week after. */
  function NextWeekId(id: string): string {
    WeekIdOf(ShiftWeeks(ParseIsoWeekDate(id + "-1"), 1))
  }

  /** Four-digit years print with four digits. */
  lemma FourDigitYear(y: nat)
    requires 1000 <= y <= 9999
    ensures |NatToDec(y)| == 4
  {
    var a, b, c := y / 10, y / 100, y / 1000;
    assert a / 10 == b && b / 10 == c;
    assert NatToDec(c) == [DigitChar(c)];
    assert |NatToDec(b)| == 2;
    assert |NatToDec(a)| == 3;
  }

  /** The Monday label of week `w` of a four-digit year parses back to that Monday. */
  lemma ParseMondayOfLabel(y: nat, w: nat)
    requires 1000 <= y <= 9999 && 1 <= w <= 53
    ensures ParseIsoWeekDate(WeekLabel(y, w) + "-1") == Some(MondayOfWeek(y, w))
  {
    var ys, ws := NatToDec(y), Pad2(w);
    var s := WeekLabel(y, w) + "-1";
    FourDigitYear(y);
    Pad2TwoDigits(w);
    assert s == ys + "-W" + ws + "-1";
    assert s[..4] == ys;
    assert s[6..8] == ws;
    DecValueOfNatToDec(y);
    assert DigitValue(s[9]) == 1;
  }

  /** The label of any day of a four-digit ISO year reads back as the Monday of its week. */
  lemma ParseWeekIdOfDay(d: Day)
    requires 1000 <= IsoYear(d) <= 9999
    ensures ParseIsoWeekDate(GetWeekId(d) + "-1") == Some(StartOfIsoWeek(d))
  {
    IsoWeekContains(d);
    ParseMondayOfLabel(IsoYear(d), IsoWeek(d));
  }

  /** Days of the same ISO week get the same label. */
  lemma SameWeekSameLabel(d1: Day, d2: Day)
    requires StartOfIsoWeek(d1) == StartOfIsoWeek(d2)
    ensures GetWeekId(d1) == GetWeekId(d2)
  {
    SameWeekSameYearAndWeek(d1, d2);
  }

  /** Shifting a valid date back a week. */
  lemma ShiftBack(date: Option<Day>, p: Day)
    requires date.Some? && p + 7 == date.value
    ensures ShiftWeeks(date, -1) == Some(p)
  {
  }

  /** Shifting a valid date on a week. */
  lemma ShiftOn(date: Option<Day>, n: Day)
    requires date.Some? && n == date.value + 7
    ensures ShiftWeeks(date, 1) == Some(n)
  {
  }

  /** A valid date prints its week label. */
  lemma WeekIdOfValid(d: Day)
    ensures WeekIdOf(Some(d)) == GetWeekId(d)
  {
  }

  /** The label of a week before a label that parses to Monday `m`. */
  lemma PreviousOfParsed(id: string, m: Day, p: Day)
    requires ParseIsoWeekDate(id + "-1") == Some(m) && p + 7 == m
    ensures PreviousWeekId(id) == GetWeekId(p)
  {
    ShiftBack(ParseIsoWeekDate(id + "-1"), p);
    WeekIdOfValid(p);
  }

  /** Stepping back from the Monday of the first week of day 0 leaves the model. */
  lemma PreviousOfFirstWeek(id: string, m: Day)
    requires ParseIsoWeekDate(id + "-1") == Some(m) && m < 7
    ensures PreviousWeekId(id) == "NaN-WNaN"
  {
  }

  /** The label of the week after a label that parses to Monday `m`. */
  lemma NextOfParsed(id: string, m: Day, n: Day)
    requires ParseIsoWeekDate(id + "-1") == Some(m) && n == m + 7
    ensures NextWeekId(id) == GetWeekId(n)
  {
    ShiftOn(ParseIsoWeekDate(id + "-1"), n);
    WeekIdOfValid(n);
  }

  /** Day `e`, seven days before `d`, has the label of the week before the week of `d`. */
  lemma LabelOfWeekBefore(d: Day, e: Day, p: Day)
    requires e + 7 == d && p + 7 == StartOfIsoWeek(d)
    ensures GetWeekId(p) == GetWeekId(e)
  {
    WeekBeforeOf(d, e, p);
    SameWeekSameLabel(p, e);
  }

  /** Day `e`, seven days after `d`, has the label of the week after the week of `d`. */
  lemma LabelOfWeekAfter(d: Day, e: Day, n: Day)
    requires e == d + 7 && n == StartOfIsoWeek(d) + 7
    ensures GetWeekId(n) == GetWeekId(e)
  {
    WeekAfterOf(d, e, n);
    SameWeekSameLabel(n, e);
  }

  /** The week before the week of `d` is the week of `e`, the day seven days earlier. */
  lemma PreviousWeekIdOfDay(d: Day, e: Day)
    requires e + 7 == d && 1000 <= IsoYear(d) <= 9999
    ensures PreviousWeekId(GetWeekId(d)) == GetWeekId(e)
  {
    ParseWeekIdOfDay(d);
    var p := MondayBefore(d);
    PreviousOfParsed(GetWeekId(d), StartOfIsoWeek(d), p);
    LabelOfWeekBefore(d, e, p);
  }

  /** The week after the week of `d` is the week of `e`, the day seven days later. */
  lemma NextWeekIdOfDay(d: Day, e: Day)
    requires e == d + 7 && 1000 <= IsoYear(d) <= 9999
    ensures NextWeekId(GetWeekId(d)) == GetWeekId(e)
  {
    ParseWeekIdOfDay(d);
    var n := MondayAfter(d);
    NextOfParsed(GetWeekId(d), StartOfIsoWeek(d), n);
    LabelOfWeekAfter(d, e, n);
  }
}
