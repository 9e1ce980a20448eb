/** The decisions of the weekly scheduled job (functions/src/index.ts): its own
    week label, the winner of a finished challenge, which active challenges it
    completes, and the challenge-win count and achievements it records for a
    winner. The Firestore reads and writes become values passed in and out:
    the active challenges are an input and the `all_time_stats` collection is
    a map from user id to the two fields the job reads and writes. */
module WeeklyJob {
  import opened Wrappers
  import opened Calendar
  import opened Text
  import opened Types
  import opened Scoring
  import opened Utils
  import opened Collections

  // ---------------------------------------------------------------------
  // The job's week label
  // ---------------------------------------------------------------------

  /** `Math.ceil(n / 7)` for a whole number `n`, negative ones included
      (`-0` prints as `0`, so it is 0 here). */
  function CeilSeven(n: int): (q: int)
    ensures n <= 7 * q < n + 7
  {
    (n + 6) / 7
  }

  /** `new Date(year, 0, 1)` for the calendar year of `d`: like every
      `new Date(year, …)`, it reads years 0 to 99 as 1900 to 1999. */
  function JobYearStart(d: Day): int {
    YearStart(DateConstructorYear(CalendarYear(d)))
  }

  /** Whole days from `startOfYear` up to `d`: the floored difference of the
      two times in days. From year 100 on it counts into the date's own year;
      before, `startOfYear` lies more than 1800 years later. */
  function DaysIntoYear(d: Day): (days: int)
    ensures CalendarYear(d) >= 100 ==> 0 <= days < DaysInYear(CalendarYear(d))
    ensures CalendarYear(d) < 100 ==> days < -365 * 1800
  {
    YearStartStep(CalendarYear(d));
    EarlyYearEnd(CalendarYear(d));
    d - JobYearStart(d)
  }

  lemma EarlyYearEnd(y: int)
    requires y >= 1
    ensures y < 100 ==> YearStart(y + 1) <= 36159
  {
    if y < 100 {
      YearStartMonotone(y + 1, 100);
    }
  }

  /** The week number of the job's `getWeekId(date)`:
      `Math.ceil((days + startOfYear.getDay() + 1) / 7)`. */
  function JobWeekNumber(d: Day): int {
    CeilSeven(DaysIntoYear(d) + JsGetDay(JobYearStart(d)) + 1)
  }

  /** `weekNumber.toString().padStart(2, "0")`: a negative number keeps its
      minus sign and is already two characters long. */
  function PadWeekNumber(w: int): string {
    if w >= 0 then Pad2(w) else "-" + NatToDec(-w)
  }

  /** The job's `getWeekId(date)`: the calendar year, `-W`, and the padded
      week number. */
  function JobWeekId(d: Day): string {
    NatToDec(CalendarYear(d)) + "-W" + PadWeekNumber(JobWeekNumber(d))
  }

  /** From year 100 on week numbers run from 1 to 54; before, every week
      number is negative, counted from 1 January of 1900 + year. */
  lemma JobWeekNumberRange(d: Day)
    ensures CalendarYear(d) >= 100 ==> 1 <= JobWeekNumber(d) <= 54
    ensures CalendarYear(d) < 100 ==> JobWeekNumber(d) < 0
  {
    var days := DaysIntoYear(d);
    assert CalendarYear(d) >= 100 ==> days <= 365;
  }

  /** From year 100 on, 1 January is in week 1 of its own year. */
  lemma NewYearIsWeekOne(y: int, d: Day)
    requires y >= 1 && d == YearStart(y)
    ensures CalendarYear(d) == y
    ensures y >= 100 ==> JobWeekNumber(d) == 1
  {
    YearStartStep(y);
    CalendarYearUnique(y, d);
  }

  /** 1 March of the year 50: `startOfYear` is Sunday 1 January 1950, so the
      day count is -693901 and the label carries a negative week. */
  lemma TwoDigitYearJobWeek(d: Day)
    requires d == DayOfDate(50, 3, 1)
    ensures JobWeekNumber(d) == -99128
    ensures JobWeekId(d) == "50-W-99128"
  {
    FirstOfMarch50(d);
    assert YearStart(1950) == 711857;
    JobWeekNumberOf(d, 711857, -693901, 0);
    PrintedFields50();
  }

  lemma FirstOfMarch50(d: Day)
    requires d == DayOfDate(50, 3, 1)
    ensures d == 17956 && CalendarYear(d) == 50
  {
    assert YearStart(50) == 17897;
    YearStartStep(50);
    CalendarYearUnique(50, d);
  }

  lemma PrintedFields50()
    ensures NatToDec(50) == "50" && PadWeekNumber(-99128) == "-99128"
  {
    assert NatToDec(9) == "9";
    assert NatToDec(99) == "99";
    assert NatToDec(991) == "991";
    assert NatToDec(9912) == "9912";
  }

  /** Weeks run Sunday to Saturday: from one day to the next within a year the
      week number rises by one when the new day is a Sunday and is unchanged
      otherwise. */
  lemma JobWeekStep(d: Day, e: Day)
    requires e == d + 1 && CalendarYear(e) == CalendarYear(d)
    ensures JobWeekNumber(e) == if JsGetDay(e) == 0 then JobWeekNumber(d) + 1 else JobWeekNumber(d)
  {
    var start := JobYearStart(d);
    var g := JsGetDay(start);
    var days := d - start;
    JobWeekNumberOf(d, start, days, g);
    JobWeekNumberOf(e, start, days + 1, g);
    JsGetDayShift(start, days + 1, e);
    StepOfWeekday(JobWeekNumber(d), JobWeekNumber(e), JsGetDay(e), days, g);
  }

  lemma JobWeekNumberOf(d: Day, start: int, days: int, g: nat)
    requires start == JobYearStart(d) && days == d - start && g == JsGetDay(start)
    ensures JobWeekNumber(d) == CeilSeven(days + g + 1)
  {
  }

  lemma StepOfWeekday(before: int, after: int, weekday: nat, days: int, g: nat)
    requires before == CeilSeven(days + g + 1) && after == CeilSeven(days + 1 + g + 1)
    requires weekday == (g + (days + 1)) % 7
    ensures after == if weekday == 0 then before + 1 else before
  {
    CeilSevenStep(days + g + 1);
  }

  /** The weekday moves on by one for every day. */
  lemma JsGetDayShift(a: int, k: int, b: int)
    requires b == a + k
    ensures JsGetDay(b) == (JsGetDay(a) + k) % 7
  {
    ModAdd(a + k, 1);
    ModAdd(a % 7 + 1, k);
    ModAdd(a, 1 + k);
  }

  /** Adding to a remainder modulo 7 is adding to the number. */
  lemma ModAdd(u: int, k: int)
    ensures (u % 7 + k) % 7 == (u + k) % 7
  {
    var q := u / 7;
    assert u == 7 * q + u % 7;
    ModOfMultiplePlus(q, u % 7 + k);
  }

  lemma ModOfMultiplePlus(m: int, t: int)
    ensures (7 * m + t) % 7 == t % 7
  {
  }

  lemma CeilSevenStep(n: int)
    ensures CeilSeven(n + 1) == if n % 7 == 0 then CeilSeven(n) + 1 else CeilSeven(n)
  {
  }

  /** The job's label determines the calendar year and the week number. */
  lemma JobWeekIdInjective(d1: Day, d2: Day)
    ensures JobWeekId(d1) == JobWeekId(d2) <==>
      CalendarYear(d1) == CalendarYear(d2) && JobWeekNumber(d1) == JobWeekNumber(d2)
  {
    JobWeekNumberRange(d1);
    JobWeekNumberRange(d2);
    LabelsDiffer(CalendarYear(d1), JobWeekNumber(d1), CalendarYear(d2), JobWeekNumber(d2));
  }

  /** Labels with week numbers below 100, negative ones included, are read
      back field by field. */
  lemma LabelsDiffer(y1: nat, w1: int, y2: nat, w2: int)
    requires w1 < 100 && w2 < 100
    ensures NatToDec(y1) + "-W" + PadWeekNumber(w1) == NatToDec(y2) + "-W" + PadWeekNumber(w2)
      ==> y1 == y2 && w1 == w2
  {
    var p1, p2 := PadWeekNumber(w1), PadWeekNumber(w2);
    if NatToDec(y1) + "-W" + p1 == NatToDec(y2) + "-W" + p2 {
      PadWeekNumberShape(w1);
      PadWeekNumberShape(w2);
      NatToDecDigits(y1);
      NatToDecDigits(y2);
      SplitAtFirstSeparator(NatToDec(y1), p1);
      SplitAtFirstSeparator(NatToDec(y2), p2);
      NatToDecInjective(y1, y2);
      PadWeekNumberInjective(w1, w2);
    }
  }

  /** A padded week number is digits, after a minus sign when negative. */
  lemma PadWeekNumberShape(w: int)
    ensures forall k :: 0 <= k < |PadWeekNumber(w)| ==> PadWeekNumber(w)[k] != 'W'
    ensures |PadWeekNumber(w)| >= 2
    ensures w >= 0 <==> IsDigit(PadWeekNumber(w)[0])
  {
    if w >= 0 {
      Pad2Digits(w);
    } else {
      NatToDecDigits(-w);
      assert forall k :: 1 <= k < |PadWeekNumber(w)| ==> PadWeekNumber(w)[k] == NatToDec(-w)[k - 1];
    }
  }

  lemma PadWeekNumberInjective(w1: int, w2: int)
    requires w1 < 100 && w2 < 100 && PadWeekNumber(w1) == PadWeekNumber(w2)
    ensures w1 == w2
  {
    PadWeekNumberShape(w1);
    PadWeekNumberShape(w2);
    if w1 >= 0 {
      ParsePad2(w1);
      ParsePad2(w2);
    } else {
      assert NatToDec(-w1) == PadWeekNumber(w1)[1..] == PadWeekNumber(w2)[1..] == NatToDec(-w2);
      NatToDecInjective(-w1, -w2);
    }
  }

  /** Sunday 4 January 2026: the job puts it in week 2 of 2026, while the ISO
      label the app gives challenges puts it in week 1. */
  lemma DisagreesOn2026January4(d: Day)
    requires d == DayOfDate(2026, 1, 4)
    ensures JsGetDay(d) == 0
      && JobWeekId(d) == WeekLabel(2026, 2)
      && GetWeekId(d) == WeekLabel(2026, 1)
      && JobWeekId(d) != GetWeekId(d)
  {
    assert YearStart(2026) == 739616 && Week1Monday(2026) == 739613;
    assert d == 739619;
    YearStartStep(2026);
    CalendarYearUnique(2026, d);
    IsoYearUnique(2026, d);
    JobWeekNumberOf(d, 739616, 3, 4);
    IsoWeekOf(d, 2026, 739613);
    LabelsOf(d, 2026, 2, 2026, 1);
  }

  /** Monday 29 December 2025: the job says week 53 of 2025, the ISO label
      says week 1 of 2026. */
  lemma DisagreesOn2025December29(d: Day)
    requires d == DayOfDate(2025, 12, 29)
    ensures JobWeekId(d) == WeekLabel(2025, 53)
      && GetWeekId(d) == WeekLabel(2026, 1)
      && JobWeekId(d) != GetWeekId(d)
  {
    DaysBeforeDecember2025();
    assert YearStart(2025) == 739251 && Week1Monday(2026) == 739613;
    assert d == 739613;
    YearStartStep(2025);
    CalendarYearUnique(2025, d);
    IsoYearUnique(2026, d);
    JobWeekNumberOf(d, 739251, 362, 3);
    IsoWeekOf(d, 2026, 739613);
    LabelsOf(d, 2025, 53, 2026, 1);
  }

  /** The two labels of a day whose calendar and ISO fields are known. */
  lemma LabelsOf(d: Day, y: nat, w: nat, isoYear: nat, isoWeek: nat)
    requires CalendarYear(d) == y && JobWeekNumber(d) == w && w < 100
    requires IsoYear(d) == isoYear && IsoWeek(d) == isoWeek
    ensures JobWeekId(d) == WeekLabel(y, w) && GetWeekId(d) == WeekLabel(isoYear, isoWeek)
    ensures JobWeekId(d) == GetWeekId(d) ==> y == isoYear && w == isoWeek
  {
    LabelsDiffer(y, w, isoYear, isoWeek);
  }

  lemma IsoWeekOf(d: Day, y: int, monday: int)
    requires y >= 1 && IsoYear(d) == y && monday == Week1Monday(y)
    ensures IsoWeek(d) == (d - monday) / 7 + 1
  {
  }

  lemma DaysBeforeDecember2025()
    ensures DaysBeforeMonth(2025, 12) == 334
  {
    assert DaysBeforeMonth(2025, 3) == 59;
    assert DaysBeforeMonth(2025, 6) == 151;
    assert DaysBeforeMonth(2025, 9) == 243;
  }

  /** On the Mondays the job runs, its week number is the ISO week number
      whenever the two years agree, except in a year whose 1 January is a
      Friday or a Saturday: there every such Monday is one week ahead. (Before
      year 100 the job's week numbers are negative; see JobWeekNumberRange.) */
  lemma MondayJobWeek(d: Day)
    requires Weekday(d) == 0 && IsoYear(d) == CalendarYear(d) && CalendarYear(d) >= 100
    ensures var newYear := Weekday(YearStart(CalendarYear(d)));
      JobWeekNumber(d) == IsoWeek(d) + (if 4 <= newYear <= 5 then 1 else 0)
  {
    var y := CalendarYear(d);
    var s := YearStart(y);
    assert Week1Monday(y) == 7 * ((s + 3) / 7);
    assert IsoWeek(d) == (d - 7 * ((s + 3) / 7)) / 7 + 1;
    assert JobWeekNumber(d) == (d - s + JsGetDay(s) + 1 + 6) / 7;
    MondayWeeksFromYearStart(s, d);
  }

  /** The arithmetic of `MondayJobWeek`, for 1 January on day `s` and a
      Monday `d` on or after the Monday of ISO week 1. */
  lemma MondayWeeksFromYearStart(s: nat, d: nat)
    requires d % 7 == 0 && s <= d && 7 * ((s + 3) / 7) <= d
    ensures (d - s + (s % 7 + 1) % 7 + 1 + 6) / 7
            == (d - 7 * ((s + 3) / 7)) / 7 + 1 + (if 4 <= s % 7 <= 5 then 1 else 0)
  {
    var k, r, m := s / 7, s % 7, d / 7;
    var b := if r >= 4 then 1 else 0;
    assert (s + 3) / 7 == k + b;
    assert d - 7 * (k + b) == 7 * (m - k - b);
    if r == 6 {
      assert d - s + (r + 1) % 7 + 1 + 6 == 7 * (m - k) + 1;
    } else {
      assert d - s + (r + 1) % 7 + 1 + 6 == 7 * (m - k) + 8;
    }
  }

  /** Monday 4 January 2027: the job says week 2 of 2027, the ISO label
      says week 1. */
  lemma DisagreesOn2027January4(d: Day)
    requires d == DayOfDate(2027, 1, 4)
    ensures Weekday(d) == 0
      && JobWeekId(d) == WeekLabel(2027, 2)
      && GetWeekId(d) == WeekLabel(2027, 1)
      && JobWeekId(d) != GetWeekId(d)
  {
    assert YearStart(2027) == 739981 && Week1Monday(2027) == 739984;
    assert d == 739984;
    YearStartStep(2027);
    CalendarYearUnique(2027, d);
    IsoYearUnique(2027, d);
    JobWeekNumberOf(d, 739981, 3, 5);
    IsoWeekOf(d, 2027, 739984);
    LabelsOf(d, 2027, 2, 2027, 1);
  }

  /** Monday 4 January 2027 is a day the job runs. Its label is week 2, so a
      challenge the app has labelled with the ISO week starting that very
      Monday already counts as due. */
  lemma CurrentIsoWeekDueOn2027January4(d: Day, c: Challenge)
    requires d == DayOfDate(2027, 1, 4) && c.weekId == GetWeekId(d)
    ensures Weekday(d) == 0 && IsDue(c, JobWeekId(d))
  {
    DisagreesOn2027January4(d);
  }

  /** On a Monday whose ISO and calendar years agree, a challenge labelled
      with the ISO week that has just begun counts as due exactly when
      1 January of that year was a Friday or a Saturday, or the year is below
      100, where the job's week number is negative. */
  lemma CurrentIsoWeekDueOnMonday(d: Day, c: Challenge)
    requires Weekday(d) == 0 && IsoYear(d) == CalendarYear(d)
    requires c.weekId == GetWeekId(d)
    ensures IsDue(c, JobWeekId(d)) <==>
      CalendarYear(d) < 100 || 4 <= Weekday(YearStart(CalendarYear(d))) <= 5
  {
    JobWeekNumberRange(d);
    if CalendarYear(d) >= 100 {
      MondayJobWeek(d);
    }
    assert GetWeekId(d) == NatToDec(IsoYear(d)) + "-W" + PadWeekNumber(IsoWeek(d));
    LabelsDiffer(CalendarYear(d), JobWeekNumber(d), IsoYear(d), IsoWeek(d));
  }

  // ---------------------------------------------------------------------
  // Winner and completion
  // ---------------------------------------------------------------------

  /** The job's `winnerId`: the challenger's id when the challenger scored
      more, the opponent's id when the opponent scored more, `null` on a tie. */
  function WinnerId(c: Challenge): (r: Option<string>)
    ensures r.None? <==> c.challengerScore == c.opponentScore
  {
    if c.challengerScore > c.opponentScore then Some(c.challengerId)
    else if c.opponentScore > c.challengerScore then Some(c.opponentId)
    else None
  }

  /** The id `getChallengeWinner`'s result names. */
  function NamedBy(c: Challenge, result: ChallengeResult): Option<string> {
    match result
    case ChallengerWins => Some(c.challengerId)
    case OpponentWins => Some(c.opponentId)
    case Tie => None
  }

  /** The job decides exactly as `getChallengeWinner` does once the challenge
      is completed. */
  lemma WinnerIdAgreesWithCore(c: Challenge)
    ensures GetChallengeWinner(c.(status := Completed)).Some?
    ensures WinnerId(c) == NamedBy(c, GetChallengeWinner(c.(status := Completed)).value)
  {
  }

  /** `if (winnerId)`: a winner is credited only when the id is a non-empty string. */
  predicate Credited(winnerId: Option<string>) {
    winnerId.Some? && winnerId.value != ""
  }

  /** The completion filter: an active challenge labelled with any week other
      than the job's current week is completed. */
  predicate IsDue(c: Challenge, currentWeekId: string) {
    c.weekId != currentWeekId
  }

  /** What the batch writes for one completed challenge (`status` becomes
      `completed`). */
  datatype Completion = Completion(challengeId: string, winnerId: Option<string>)

  /** The active challenges the job completes, in query order. */
  function DueChallenges(active: seq<Challenge>, currentWeekId: string): (due: seq<Challenge>)
    ensures |due| <= |active|
  {
    if active == [] then []
    else
      var c := active[|active| - 1];
      DueChallenges(active[..|active| - 1], currentWeekId) + if IsDue(c, currentWeekId) then [c] else []
  }

  /** The batch updates for the given completed challenges. */
  function CompletionsOf(due: seq<Challenge>): (r: seq<Completion>)
    ensures |r| == |due|
    ensures forall i :: 0 <= i < |r| ==> r[i] == Completion(due[i].id, WinnerId(due[i]))
  {
    seq(|due|, i requires 0 <= i < |due| => Completion(due[i].id, WinnerId(due[i])))
  }

  /** The users credited with a win, one entry per completed challenge they won. */
  function WinnersOf(due: seq<Challenge>): seq<string> {
    if due == [] then []
    else
      var c := due[|due| - 1];
      WinnersOf(due[..|due| - 1]) + if Credited(WinnerId(c)) then [WinnerId(c).value] else []
  }

  /** A challenge is completed exactly when it is active and labelled with
      another week. */
  lemma {:induction false} DueMeaning(active: seq<Challenge>, currentWeekId: string)
    ensures forall c :: c in DueChallenges(active, currentWeekId) <==> c in active && c.weekId != currentWeekId
  {
    if active != [] {
      var n := |active| - 1;
      DueMeaning(active[..n], currentWeekId);
      assert active == active[..n] + [active[n]];
    }
  }

  /** Exactly the credited winners of completed challenges appear, at most
      one per challenge. */
  lemma {:induction false} WinnersMeaning(due: seq<Challenge>)
    ensures |WinnersOf(due)| <= |due|
    ensures forall u :: u in WinnersOf(due) <==>
      exists c :: c in due && Credited(WinnerId(c)) && WinnerId(c).value == u
  {
    if due != [] {
      var n := |due| - 1;
      WinnersMeaning(due[..n]);
      assert due == due[..n] + [due[n]];
    }
  }

  // ---------------------------------------------------------------------
  // Challenge-win stats
  // ---------------------------------------------------------------------

  /** The two fields of a user's `all_time_stats` document the job reads and
      writes; a missing `challengeWins` reads as 0 and missing `achievements`
      as the empty list. */
  datatype StatsDoc = StatsDoc(challengeWins: nat, achievements: seq<Achievement>)

  type StatsStore = map<string, StatsDoc>

  const FIRST_VICTORY: Achievement :=
    Achievement("first_challenge_win", "First Victory", "Win your first challenge", "\U{1F3C6}", Social)
  const CHALLENGE_CHAMPION: Achievement :=
    Achievement("win_5_challenges", "Challenge Champion", "Win 5 challenges", "\U{1F947}", Social)
  const UNDEFEATED: Achievement :=
    Achievement("win_10_challenges", "Undefeated", "Win 10 challenges", "\U{1F451}", Social)

  /** The objects the job writes are the catalog's own entries. */
  lemma JobAchievementsInCatalog()
    ensures Achievements()[11] == ("FIRST_CHALLENGE_WIN", FIRST_VICTORY)
    ensures Achievements()[12] == ("WIN_5_CHALLENGES", CHALLENGE_CHAMPION)
    ensures Achievements()[13] == ("WIN_10_CHALLENGES", UNDEFEATED)
  {
  }

  /** The achievement a new win count unlocks: 1, 5 and 10 wins. */
  function MilestoneFor(wins: nat): (r: Option<Achievement>)
    ensures r.Some? <==> wins == 1 || wins == 5 || wins == 10
  {
    if wins == 1 then Some(FIRST_VICTORY)
    else if wins == 5 then Some(CHALLENGE_CHAMPION)
    else if wins == 10 then Some(UNDEFEATED)
    else None
  }

  /** `existingAchievements.map(a => a.id)` */
  function IdsOf(achievements: seq<Achievement>): (ids: seq<string>)
    ensures |ids| == |achievements|
    ensures forall i :: 0 <= i < |ids| ==> ids[i] == achievements[i].id
  {
    seq(|achievements|, i requires 0 <= i < |achievements| => achievements[i].id)
  }

  /** The user's win count as the job reads it: `stats?.challengeWins || 0`. */
  function Wins(store: StatsStore, userId: string): nat {
    if userId in store then store[userId].challengeWins else 0
  }

  /** The store after `updateUserStatsForWin(userId)`. */
  function WinUpdate(store: StatsStore, userId: string): StatsStore {
    if userId in store then
      var doc := store[userId];
      var newWins := doc.challengeWins + 1;
      var unlocked := MilestoneFor(newWins);
      var added := if unlocked.Some? && unlocked.value.id !in IdsOf(doc.achievements) then [unlocked.value] else [];
      store[userId := StatsDoc(newWins, doc.achievements + added)]
    else
      store[userId := StatsDoc(1, [FIRST_VICTORY])]
  }

  /** `updateUserStatsForWin(userId)`: with a document, raise the count and
      push each achievement whose count is reached and which is not yet
      present; without one, create it with one win and the first-win
      achievement. */
  method UpdateUserStatsForWin(store: StatsStore, userId: string) returns (updated: StatsStore)
    ensures updated == WinUpdate(store, userId)
  {
    if userId in store {
      var stats := store[userId];
      var newWins := stats.challengeWins + 1;
      updated := store[userId := stats.(challengeWins := newWins)];

      var existingIds := IdsOf(stats.achievements);
      var newAchievements: seq<Achievement> := [];
      if newWins == 1 && FIRST_VICTORY.id !in existingIds {
        newAchievements := newAchievements + [FIRST_VICTORY];
      }
      if newWins == 5 && CHALLENGE_CHAMPION.id !in existingIds {
        newAchievements := newAchievements + [CHALLENGE_CHAMPION];
      }
      if newWins == 10 && UNDEFEATED.id !in existingIds {
        newAchievements := newAchievements + [UNDEFEATED];
      }

      ghost var unlocked := MilestoneFor(newWins);
      assert newAchievements == if unlocked.Some? && unlocked.value.id !in existingIds then [unlocked.value] else [];
      if |newAchievements| > 0 {
        updated := updated[userId := StatsDoc(newWins, stats.achievements + newAchievements)];
      } else {
        assert stats.achievements + newAchievements == stats.achievements;
      }
    } else {
      updated := store[userId := StatsDoc(1, [FIRST_VICTORY])];
    }
  }

  /** Each win raises the winner's count by exactly one and touches no other
      user. */
  lemma WinUpdateCounts(store: StatsStore, userId: string)
    ensures Wins(WinUpdate(store, userId), userId) == Wins(store, userId) + 1
    ensures WinUpdate(store, userId).Keys == store.Keys + {userId}
    ensures forall other :: other in store && other != userId ==> WinUpdate(store, userId)[other] == store[other]
  {
  }

  /** The achievements only grow, by at most one per win, and one is added
      exactly when the new count is 1, 5 or 10 and its id is not yet there. */
  lemma WinUpdateAchievements(store: StatsStore, userId: string)
    requires userId in store
    ensures var before := store[userId].achievements;
      var after := WinUpdate(store, userId)[userId].achievements;
      var newWins := store[userId].challengeWins + 1;
      && |before| <= |after| <= |before| + 1
      && after[..|before|] == before
      && (|after| == |before| + 1 <==>
            MilestoneFor(newWins).Some? && MilestoneFor(newWins).value.id !in IdsOf(before))
      && (|after| == |before| + 1 ==> after[|before|] == MilestoneFor(newWins).value)
  {
  }

  /** A first win without a document gives one win and exactly the first-win
      achievement. */
  lemma WinUpdateFresh(store: StatsStore, userId: string)
    requires userId !in store
    ensures WinUpdate(store, userId)[userId] == StatsDoc(1, [FIRST_VICTORY])
  {
  }

  /** The stats after crediting the wins in order. */
  function ApplyWins(store: StatsStore, winners: seq<string>): StatsStore {
    if winners == [] then store
    else WinUpdate(ApplyWins(store, winners[..|winners| - 1]), winners[|winners| - 1])
  }

  lemma ApplyWinsSnoc(store: StatsStore, winners: seq<string>, w: string)
    ensures ApplyWins(store, winners + [w]) == WinUpdate(ApplyWins(store, winners), w)
  {
    assert (winners + [w])[..|winners|] == winners;
  }

  /** Every user's count rises by the number of wins credited to them. */
  lemma {:induction false} WinsAccumulate(store: StatsStore, winners: seq<string>, userId: string)
    ensures Wins(ApplyWins(store, winners), userId) == Wins(store, userId) + multiset(winners)[userId]
  {
    if winners != [] {
      var n := |winners| - 1;
      WinsAccumulate(store, winners[..n], userId);
      assert winners == winners[..n] + [winners[n]];
      WinUpdateCounts(ApplyWins(store, winners[..n]), winners[n]);
    }
  }

  /** The achievements a user holds after `k >= 1` wins counted from no
      document: every milestone reached, in order, each once. */
  function UnlockedAfter(k: nat): seq<Achievement> {
    [FIRST_VICTORY] + (if k >= 5 then [CHALLENGE_CHAMPION] else []) + (if k >= 10 then [UNDEFEATED] else [])
  }

  /** A user without a document ends with a document exactly when credited
      with a win, holding the count of wins and each milestone reached once. */
  lemma {:induction false} FreshUserMilestones(store: StatsStore, winners: seq<string>, userId: string)
    requires userId !in store
    ensures var k := multiset(winners)[userId];
      && (userId in ApplyWins(store, winners) <==> k > 0)
      && (k > 0 ==> ApplyWins(store, winners)[userId] == StatsDoc(k, UnlockedAfter(k)))
  {
    if winners != [] {
      var n := |winners| - 1;
      FreshUserMilestones(store, winners[..n], userId);
      assert winners == winners[..n] + [winners[n]];
      var before := ApplyWins(store, winners[..n]);
      if winners[n] == userId && userId in before {
        MilestoneStep(multiset(winners[..n])[userId]);
      }
    }
  }

  /** One more win after `k >= 1` wins adds the next milestone if there is one. */
  lemma MilestoneStep(k: nat)
    requires k >= 1
    ensures var unlocked := MilestoneFor(k + 1);
      var added := if unlocked.Some? && unlocked.value.id !in IdsOf(UnlockedAfter(k)) then [unlocked.value] else [];
      UnlockedAfter(k) + added == UnlockedAfter(k + 1)
  {
    if k + 1 == 5 {
      assert IdsOf(UnlockedAfter(k)) == ["first_challenge_win"];
    } else if k + 1 == 10 {
      assert IdsOf(UnlockedAfter(k)) == ["first_challenge_win", "win_5_challenges"];
    }
  }

  // ---------------------------------------------------------------------
  // The job's loop
  // ---------------------------------------------------------------------

  /** The loop over the active challenges: every challenge of another week
      is completed with its winner, and each credited winner's stats are
      updated in turn. */
  method CompleteWeeklyChallenges(active: seq<Challenge>, currentWeekId: string, store: StatsStore)
    returns (completed: seq<Completion>, completedCount: nat, updated: StatsStore)
    ensures completed == CompletionsOf(DueChallenges(active, currentWeekId))
    ensures completedCount == |DueChallenges(active, currentWeekId)|
    ensures updated == ApplyWins(store, WinnersOf(DueChallenges(active, currentWeekId)))
  {
    completed := [];
    completedCount := 0;
    updated := store;
    for i := 0 to |active|
      invariant JobStateAfter(active[..i], currentWeekId, store, completed, completedCount, updated)
    {
      var completed', completedCount', updated' :=
        CompleteChallenge(active[i], currentWeekId, completed, completedCount, updated);
      LoopStep(active, i, currentWeekId, store, completed, completedCount, updated,
               completed', completedCount', updated');
      completed, completedCount, updated := completed', completedCount', updated';
    }
    assert active[..|active|] == active;
  }

  /** The loop's state once the challenges of `done` have been processed. */
  predicate JobStateAfter(done: seq<Challenge>, currentWeekId: string, store: StatsStore,
                          completed: seq<Completion>, completedCount: nat, updated: StatsStore)
  {
    && completed == CompletionsOf(DueChallenges(done, currentWeekId))
    && completedCount == |completed|
    && updated == ApplyWins(store, WinnersOf(DueChallenges(done, currentWeekId)))
  }

  /** The body of the loop for one challenge: complete it when it is due, and
      credit its winner when there is one. */
  method CompleteChallenge(challenge: Challenge, currentWeekId: string,
                           completed: seq<Completion>, completedCount: nat, store: StatsStore)
    returns (completed': seq<Completion>, completedCount': nat, store': StatsStore)
    ensures completed' == if IsDue(challenge, currentWeekId)
      then completed + [Completion(challenge.id, WinnerId(challenge))] else completed
    ensures completedCount' == if IsDue(challenge, currentWeekId) then completedCount + 1 else completedCount
    ensures store' == if IsDue(challenge, currentWeekId) && Credited(WinnerId(challenge))
      then WinUpdate(store, WinnerId(challenge).value) else store
  {
    completed', completedCount', store' := completed, completedCount, store;
    if challenge.weekId != currentWeekId {
      var winnerId := WinnerId(challenge);
      completed' := completed' + [Completion(challenge.id, winnerId)];
      if winnerId.Some? && winnerId.value != "" {
        store' := UpdateUserStatsForWin(store', winnerId.value);
      }
      completedCount' := completedCount' + 1;
    }
  }

  lemma CompletionsOfSnoc(due: seq<Challenge>, c: Challenge)
    ensures CompletionsOf(due + [c]) == CompletionsOf(due) + [Completion(c.id, WinnerId(c))]
  {
    assert forall i :: 0 <= i < |due| ==> (due + [c])[i] == due[i];
  }

  /** One pass of the loop keeps its invariant: what `CompleteChallenge`
      returns for challenge `i` is the state for the first `i + 1` challenges. */
  lemma LoopStep(active: seq<Challenge>, i: nat, currentWeekId: string, store: StatsStore,
                 completed: seq<Completion>, completedCount: nat, updated: StatsStore,
                 completed': seq<Completion>, completedCount': nat, updated': StatsStore)
    requires i < |active|
    requires JobStateAfter(active[..i], currentWeekId, store, completed, completedCount, updated)
    requires completed' == if IsDue(active[i], currentWeekId)
      then completed + [Completion(active[i].id, WinnerId(active[i]))] else completed
    requires completedCount' == if IsDue(active[i], currentWeekId) then completedCount + 1 else completedCount
    requires updated' == if IsDue(active[i], currentWeekId) && Credited(WinnerId(active[i]))
      then WinUpdate(updated, WinnerId(active[i]).value) else updated
    ensures JobStateAfter(active[..i + 1], currentWeekId, store, completed', completedCount', updated')
  {
    DueStep(active, i, currentWeekId);
    var c := active[i];
    if IsDue(c, currentWeekId) && Credited(WinnerId(c)) {
      ApplyWinsSnoc(store, WinnersOf(DueChallenges(active[..i], currentWeekId)), WinnerId(c).value);
    }
  }

  /** One more challenge extends the completions, the count and the winners
      when it is due, and changes nothing otherwise. */
  lemma DueStep(active: seq<Challenge>, i: nat, currentWeekId: string)
    requires i < |active|
    ensures var before := DueChallenges(active[..i], currentWeekId);
      var after := DueChallenges(active[..i + 1], currentWeekId);
      var c := active[i];
      && after == (if IsDue(c, currentWeekId) then before + [c] else before)
      && CompletionsOf(after) ==
           (if IsDue(c, currentWeekId) then CompletionsOf(before) + [Completion(c.id, WinnerId(c))] else CompletionsOf(before))
      && WinnersOf(after) ==
           (if IsDue(c, currentWeekId) && Credited(WinnerId(c)) then WinnersOf(before) + [WinnerId(c).value] else WinnersOf(before))
  {
    var c := active[i];
    var before := DueChallenges(active[..i], currentWeekId);
    assert active[..i + 1][..i] == active[..i];
    if IsDue(c, currentWeekId) {
      CompletionsOfSnoc(before, c);
      assert (before + [c])[..|before|] == before;
    }
  }
}
