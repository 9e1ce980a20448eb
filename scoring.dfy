/** Weekly scoring: ISO week labels (`getWeekId`), the week a label names
    (`getWeekDates`), the weekly score and summary, and the progress
    percentage (core/src/scoring/index.ts). */
module Scoring {
  import opened Wrappers
  import opened Text
  import opened Calendar
  import opened Collections
  import opened Types
  import opened Arithmetic

  // ---------------------------------------------------------------------
  // Week labels
  // ---------------------------------------------------------------------

  /** The label `<year>-W<week padded to two digits>`. */
  function WeekLabel(year: nat, week: nat): string {
    NatToDec(year) + "-W" + Pad2(week)
  }

  /** `getWeekId(date)`: the ISO week-numbering year and the ISO week of `d`. */
  function GetWeekId(d: Day): string {
    WeekLabel(IsoYear(d), IsoWeek(d))
  }

  /** `-W` starts at index `i` of `s`. */
  predicate SeparatorAt(s: string, i: int) {
    0 <= i && i + 1 < |s| && s[i] == '-' && s[i + 1] == 'W'
  }

  /** The first index from `from` on where `-W` starts, or `|s|` when there is none. */
  function FindSeparator(s: string, from: nat): (i: nat)
    requires from <= |s|
    ensures from <= i <= |s|
    ensures i < |s| ==> SeparatorAt(s, i)
    ensures forall k :: from <= k < i ==> !SeparatorAt(s, k)
    decreases |s| - from
  {
    if from == |s| || SeparatorAt(s, from) then from else FindSeparator(s, from + 1)
  }

  /** The first two fields of `s.split('-W')`: the text before the first
      separator, and the text from there up to the next separator or the end;
      the second is undefined (None) when `s` has no separator. */
  function SplitWeekId(s: string): (fields: (string, Option<string>))
    ensures fields.1.None? ==> fields.0 == s && forall k :: !SeparatorAt(s, k)
    ensures fields.1.Some? ==> SeparatorAt(s, |fields.0|) && s[..|fields.0|] == fields.0
    ensures forall k :: 0 <= k < |fields.0| ==> !SeparatorAt(s, k)
    ensures fields.1.Some? ==>
      var rest := s[|fields.0| + 2..];
      var f := fields.1.value;
      |f| <= |rest| && f == rest[..|f|] && (|f| < |rest| ==> SeparatorAt(rest, |f|)) &&
      forall k :: 0 <= k < |f| ==> !SeparatorAt(rest, k)
  {
    var i := FindSeparator(s, 0);
    if i == |s| then (s, None)
    else
      var rest := s[i + 2..];
      (s[..i], Some(rest[..FindSeparator(rest, 0)]))
  }

  /** The year `new Date(year, 0, 4)` lands in: 0 to 99 are read as 1900 to 1999. */
  function DateConstructorYear(year: nat): (y: nat)
    ensures y >= 100
    ensures year >= 100 ==> y == year
  {
    if year < 100 then 1900 + year else year
  }

  /** `getWeekDates(weekId)`: week 1's Monday of the parsed year plus `week - 1`
      weeks, up to the Sunday after; None where the source yields Invalid Dates. */
  function GetWeekDates(weekId: string): (r: Option<WeekRange>)
    ensures r.Some? ==> Weekday(r.value.startDate) == 0 && r.value.endDate == r.value.startDate + 6
  {
    var (yearStr, weekStr) := SplitWeekId(weekId);
    var year := ParseInt(yearStr);
    var week := if weekStr.Some? then ParseInt(weekStr.value) else None;
    if year.None? || week.None? then None
    else
      var y := DateConstructorYear(year.value);
      Week1MondayLowerBound(y);
      StartOfWeekOfJan4(y);
      var weekStart := StartOfIsoWeek(Jan4(y)) + (week.value as int - 1) * 7;
      Some(WeekRange(StartOfIsoWeek(weekStart), EndOfIsoWeek(weekStart)))
  }

  /** Splitting a printed label at `-W` gives back its two printed numbers. */
  lemma SplitWeekLabel(y: nat, w: nat)
    ensures SplitWeekId(WeekLabel(y, w)) == (NatToDec(y), Some(Pad2(w)))
  {
    NatToDecDigits(y);
    Pad2Digits(w);
    SplitAtFirstSeparator(NatToDec(y), Pad2(w));
  }

  /** Digits, `-W`, then text without a `W`: the split returns the digits and
      that text. */
  lemma SplitAtFirstSeparator(ys: string, t: string)
    requires AllDigits(ys)
    requires forall k :: 0 <= k < |t| ==> t[k] != 'W'
    ensures SplitWeekId(ys + "-W" + t) == (ys, Some(t))
  {
    var s := ys + "-W" + t;
    var fields := SplitWeekId(s);
    assert SeparatorAt(s, |ys|);
    assert fields.1.Some?;
    assert |fields.0| == |ys|;
    var rest := s[|ys| + 2..];
    assert rest == t;
    assert fields.0 == ys;
    var f := fields.1.value;
    assert f == t[..|t|] == t;
  }

  lemma ParsePad2(w: nat)
    requires w < 100
    ensures ParseInt(Pad2(w)) == Some(w)
  {
    Pad2TwoDigits(w);
    LeadingDigitsOfDigitsThen(Pad2(w), []);
    assert Pad2(w) + [] == Pad2(w);
    assert Pad2(w)[..|Pad2(w)|] == Pad2(w);
  }

  /** Labels are read back field by field: two labels with weeks below 100 are
      equal only when their years and weeks are. */
  lemma WeekLabelInjective(y1: nat, w1: nat, y2: nat, w2: nat)
    requires w1 < 100 && w2 < 100
    requires WeekLabel(y1, w1) == WeekLabel(y2, w2)
    ensures y1 == y2 && w1 == w2
  {
    SplitWeekLabel(y1, w1);
    SplitWeekLabel(y2, w2);
    NatToDecInjective(y1, y2);
    ParsePad2(w1);
    ParsePad2(w2);
  }

  /** What `getWeekDates` makes of any printed label: week `w` counted on from
      week 1 of the year `new Date` reads, whether or not `w` is a week of that year. */
  lemma WeekDatesOfLabel(y: nat, w: nat)
    requires w < 100
    ensures GetWeekDates(WeekLabel(y, w)).Some?
    ensures GetWeekDates(WeekLabel(y, w)).value.startDate == MondayOfWeek(DateConstructorYear(y), w)
  {
    var y' := DateConstructorYear(y);
    SplitWeekLabel(y, w);
    ParseIntOfNatToDec(y, []);
    assert NatToDec(y) + [] == NatToDec(y);
    ParsePad2(w);
    StartOfWeekOfJan4(y');
    Week1MondayLowerBound(y');
    MondayPlusWeeks(Week1Monday(y'), w - 1);
  }

  /** Round trip from labels: for a year from 100 on and a week of that year,
      both ends of the range `getWeekDates` returns carry the label again. */
  lemma GetWeekDatesRoundTrip(y: nat, w: nat)
    requires y >= 100 && 1 <= w <= WeeksInYear(y)
    ensures GetWeekDates(WeekLabel(y, w)).Some?
    ensures GetWeekId(GetWeekDates(WeekLabel(y, w)).value.startDate) == WeekLabel(y, w)
    ensures GetWeekId(GetWeekDates(WeekLabel(y, w)).value.endDate) == WeekLabel(y, w)
  {
    WeekDatesOfLabel(y, w);
    RangeOfWeekLabelled(GetWeekDates(WeekLabel(y, w)).value, y, w);
  }

  lemma RangeOfWeekLabelled(r: WeekRange, y: nat, w: nat)
    requires y >= 1 && 1 <= w <= WeeksInYear(y)
    requires r.startDate == MondayOfWeek(y, w) && r.endDate == r.startDate + 6
    ensures GetWeekId(r.startDate) == WeekLabel(y, w) && GetWeekId(r.endDate) == WeekLabel(y, w)
  {
    LabelOfWeekEnds(y, w);
  }

  /** The Monday and the Sunday of week `w` of year `y` are labelled `y`-W`w`. */
  lemma LabelOfWeekEnds(y: nat, w: nat)
    requires y >= 1 && 1 <= w <= WeeksInYear(y)
    ensures MondayOfWeek(y, w) >= 0
    ensures GetWeekId(MondayOfWeek(y, w)) == WeekLabel(y, w)
    ensures GetWeekId(MondayOfWeek(y, w) + 6) == WeekLabel(y, w)
  {
    EndsOfIsoWeek(y, w);
  }

  /** Round trip from days: the range of a day's label is the ISO week around
      that day, so it contains the day. */
  lemma GetWeekIdRoundTrip(d: Day)
    requires IsoYear(d) >= 100
    ensures GetWeekDates(GetWeekId(d)).Some?
    ensures GetWeekDates(GetWeekId(d)).value.startDate == StartOfIsoWeek(d)
    ensures GetWeekDates(GetWeekId(d)).value.endDate == EndOfIsoWeek(d)
    ensures GetWeekDates(GetWeekId(d)).value.startDate <= d <= GetWeekDates(GetWeekId(d)).value.endDate
  {
    var y, w := IsoYear(d), IsoWeek(d);
    WeekDatesOfLabel(y, w);
    IsoWeekContains(d);
  }

  /** Two days share a label exactly when they share an ISO week. */
  lemma SameLabelIffSameWeek(d1: Day, d2: Day)
    ensures GetWeekId(d1) == GetWeekId(d2) <==> StartOfIsoWeek(d1) == StartOfIsoWeek(d2)
  {
    if GetWeekId(d1) == GetWeekId(d2) {
      WeekLabelInjective(IsoYear(d1), IsoWeek(d1), IsoYear(d2), IsoWeek(d2));
      IsoWeekContains(d1);
      IsoWeekContains(d2);
    }
    if StartOfIsoWeek(d1) == StartOfIsoWeek(d2) {
      SameWeekSameYearAndWeek(d1, d2);
    }
  }

  /** A label whose year is printed with one or two digits names a week of
      1900 to 1999, not of its own year. */
  lemma TwoDigitYearLabel(y: nat, w: nat)
    requires 1 <= y < 100 && 1 <= w <= 52
    ensures GetWeekDates(WeekLabel(y, w)).Some?
    ensures IsoYear(GetWeekDates(WeekLabel(y, w)).value.startDate) == 1900 + y != y
    ensures IsoWeek(GetWeekDates(WeekLabel(y, w)).value.startDate) == w
  {
    WeekDatesOfLabel(y, w);
    MondayOfWeekIsInWeek(GetWeekDates(WeekLabel(y, w)).value.startDate, 1900 + y, w);
  }

  lemma MondayOfWeekIsInWeek(d: int, y: int, w: int)
    requires y >= 1 && 1 <= w <= WeeksInYear(y) && d == MondayOfWeek(y, w)
    ensures d >= 0 && IsoYear(d) == y && IsoWeek(d) == w
  {
    EndsOfIsoWeek(y, w);
  }

  // ---------------------------------------------------------------------
  // Weekly score and summary
  // ---------------------------------------------------------------------

  function PlantIds(logs: seq<PlantLog>): (ids: seq<string>)
    ensures |ids| == |logs|
    ensures forall i :: 0 <= i < |logs| ==> ids[i] == logs[i].plantId
  {
    seq(|logs|, i requires 0 <= i < |logs| => logs[i].plantId)
  }

  lemma PlantIdsConcat(a: seq<PlantLog>, b: seq<PlantLog>)
    ensures PlantIds(a + b) == PlantIds(a) + PlantIds(b)
  {
  }

  /** `calculateWeeklyScore(logs)`: the size of the set of logged plant ids. */
  function CalculateWeeklyScore(logs: seq<PlantLog>): (score: nat)
    ensures score <= |logs|
    ensures score == |Distinct(PlantIds(logs))|
  {
    ElementsBound(PlantIds(logs));
    DistinctLength(PlantIds(logs));
    |Elements(PlantIds(logs))|
  }

  /** Logging a plant already logged, anywhere in the list, leaves the score as it is. */
  lemma ScoreIgnoresRepeatedPlant(logs: seq<PlantLog>, k: nat, log: PlantLog)
    requires k <= |logs|
    requires exists i :: 0 <= i < |logs| && logs[i].plantId == log.plantId
    ensures CalculateWeeklyScore(logs[..k] + [log] + logs[k..]) == CalculateWeeklyScore(logs)
  {
    var i :| 0 <= i < |logs| && logs[i].plantId == log.plantId;
    assert logs == logs[..k] + logs[k..];
    PlantIdsConcat(logs[..k], logs[k..]);
    PlantIdsConcat(logs[..k], [log]);
    PlantIdsConcat(logs[..k] + [log], logs[k..]);
    assert log.plantId in Elements(PlantIds(logs));
    assert Elements(PlantIds(logs[..k] + [log] + logs[k..])) == Elements(PlantIds(logs));
  }

  /** Logging a plant not yet logged raises the score by exactly one. */
  lemma ScoreCountsNewPlant(logs: seq<PlantLog>, log: PlantLog)
    requires forall i :: 0 <= i < |logs| ==> logs[i].plantId != log.plantId
    ensures CalculateWeeklyScore(logs + [log]) == CalculateWeeklyScore(logs) + 1
  {
    PlantIdsConcat(logs, [log]);
    var ids := PlantIds(logs);
    assert PlantIds(logs + [log]) == ids + [log.plantId];
    assert log.plantId !in Elements(ids);
    assert Elements(ids + [log.plantId]) == Elements(ids) + {log.plantId};
  }

  /** The `id` of a weekly summary: `<userId>_<weekId>`. */
  function SummaryId(userId: string, weekId: string): string {
    userId + "_" + weekId
  }

  /** For user ids without `_`, a summary id determines its user and its week. */
  lemma SummaryIdInjective(u1: string, w1: string, u2: string, w2: string)
    requires '_' !in u1 && '_' !in u2
    requires SummaryId(u1, w1) == SummaryId(u2, w2)
    ensures u1 == u2 && w1 == w2
  {
    var s := SummaryId(u1, w1);
    UnderscoreAfterUser(u1, w1);
    UnderscoreAfterUser(u2, w2);
    assert u1 == s[..|u1|] == u2;
    assert w1 == s[|u1| + 1..] == w2;
  }

  /** In `<userId>_<weekId>` with `_` not in `userId`, the first `_` follows the user id. */
  lemma UnderscoreAfterUser(u: string, w: string)
    requires '_' !in u
    ensures SummaryId(u, w)[|u|] == '_'
    ensures forall k :: 0 <= k < |u| ==> SummaryId(u, w)[k] != '_'
  {
    assert forall k :: 0 <= k < |u| ==> SummaryId(u, w)[k] == u[k];
  }

  /** `generateWeeklySummary(userId, weekId, logs)`, without its timestamps. */
  function GenerateWeeklySummary(userId: string, weekId: string, logs: seq<PlantLog>): (s: WeeklySummary)
    ensures s.id == SummaryId(userId, weekId) && s.userId == userId && s.weekId == weekId
    ensures NoDuplicates(s.uniquePlantIds)
    ensures Elements(s.uniquePlantIds) == Elements(PlantIds(logs))
    ensures s.score == |s.uniquePlantIds| == CalculateWeeklyScore(logs)
    ensures s.totalLogs == |logs|
    ensures s.dates == GetWeekDates(weekId)
  {
    var uniquePlantIds := Distinct(PlantIds(logs));
    WeeklySummary(SummaryId(userId, weekId), userId, weekId, uniquePlantIds,
                  |uniquePlantIds|, |logs|, GetWeekDates(weekId))
  }

  /** `isPlantLoggedThisWeek(plantId, logs, weekId)` */
  function IsPlantLoggedThisWeek(plantId: string, logs: seq<PlantLog>, weekId: string): (r: bool)
    ensures r <==> exists i :: 0 <= i < |logs| && logs[i].plantId == plantId && logs[i].weekId == weekId
  {
    if logs == [] then false
    else if logs[0].plantId == plantId && logs[0].weekId == weekId then true
    else
      var r := IsPlantLoggedThisWeek(plantId, logs[1..], weekId);
      assert r ==> exists i :: 0 <= i < |logs| && logs[i].plantId == plantId && logs[i].weekId == weekId by {
        if r {
          var i :| 0 <= i < |logs[1..]| && logs[1..][i].plantId == plantId && logs[1..][i].weekId == weekId;
          assert logs[i + 1] == logs[1..][i];
        }
      }
      assert (exists i :: 0 <= i < |logs| && logs[i].plantId == plantId && logs[i].weekId == weekId) ==> r by {
        if exists i :: 0 <= i < |logs| && logs[i].plantId == plantId && logs[i].weekId == weekId {
          var i :| 0 <= i < |logs| && logs[i].plantId == plantId && logs[i].weekId == weekId;
          assert i > 0 && logs[1..][i - 1] == logs[i];
        }
      }
      r
  }

  /** Over one week's logs, a new log raises the score exactly when its plant
      was not logged that week yet. */
  lemma LoggedThisWeekIffScoreUnchanged(logs: seq<PlantLog>, log: PlantLog)
    requires forall i :: 0 <= i < |logs| ==> logs[i].weekId == log.weekId
    ensures CalculateWeeklyScore(logs + [log])
         == CalculateWeeklyScore(logs) + (if IsPlantLoggedThisWeek(log.plantId, logs, log.weekId) then 0 else 1)
  {
    if IsPlantLoggedThisWeek(log.plantId, logs, log.weekId) {
      ScoreIgnoresRepeatedPlant(logs, |logs|, log);
      assert logs[..|logs|] == logs && logs[|logs|..] == [];
      assert logs + [log] + [] == logs + [log];
    } else {
      ScoreCountsNewPlant(logs, log);
    }
  }

  // ---------------------------------------------------------------------
  // Progress
  // ---------------------------------------------------------------------

  const DEFAULT_TARGET: nat := 30

  /** `getProgressPercentage(score, target)`: `score / target` as a percentage
      rounded half up and capped at 100; NaN (None) for 0 / 0. */
  function GetProgressPercentage(score: nat, target: nat := DEFAULT_TARGET): (r: Option<nat>)
    ensures r.None? <==> score == 0 && target == 0
    ensures r.Some? ==> r.value <= 100
    ensures r.Some? && score >= target ==> r.value == 100
    ensures r.Some? && r.value < 100 ==>
              2 * r.value * target <= 200 * score + target < 2 * r.value * target + 2 * target
    ensures r.Some? && target > 0 ==> (r.value < 100 <==> 200 * score + target < 200 * target)
  {
    if target == 0 then (if score == 0 then None else Some(100))
    else
      var q := (200 * score + target) / (2 * target);
      RoundedPercentage(score, target);
      Some(if q < 100 then q else 100)
  }

  lemma RoundedPercentage(score: nat, target: nat)
    requires target > 0
    ensures var q := (200 * score + target) / (2 * target);
      && 2 * target * q <= 200 * score + target < 2 * target * q + 2 * target
      && (score >= target ==> q >= 100)
      && (q < 100 <==> 200 * score + target < 200 * target)
  {
    var q := (200 * score + target) / (2 * target);
    RoundedQuotient(200 * score + target, 2 * target);
    if q < 100 {
      MulLeftMonotone(2 * target, q + 1, 100);
    } else {
      MulLeftMonotone(2 * target, 100, q);
    }
    if score >= target {
      assert 2 * target * 100 <= 200 * score + target;
      QuotientAtLeast(200 * score + target, 2 * target, 100);
    }
  }

  /** A higher score never shows less progress towards the same target. */
  lemma ProgressMonotone(s1: nat, s2: nat, target: nat)
    requires s1 <= s2 && target > 0
    ensures GetProgressPercentage(s1, target).value <= GetProgressPercentage(s2, target).value
  {
    QuotientMonotone(200 * s1 + target, 200 * s2 + target, 2 * target);
  }
}
