/** `checkAchievements` (core/src/stats/index.ts): which achievement ids a
    user has newly earned. The nine checks are one rule table: an id, the
    statistic it reads and the threshold that statistic must reach. */
module StatsAchievements {
  import opened Calendar
  import opened Collections
  import opened Types
  import opened Stats
  import opened Text

  /** The statistic an achievement check reads. */
  datatype Measure = TotalLogs | BestWeekScore | MaxStreak | TotalUniquePlants

  /** Award `id` once the measure reaches `threshold`. */
  datatype Rule = Rule(id: string, threshold: nat, measure: Measure)

  /** The checks in the order `checkAchievements` makes them. `totalLogs > 0`
      is the threshold 1 on a count. */
  function Rules(): seq<Rule> {
    [ Rule("first_plant", 1, TotalLogs),
      Rule("reached_10", 10, BestWeekScore),
      Rule("reached_20", 20, BestWeekScore),
      Rule("reached_30", 30, BestWeekScore),
      Rule("reached_40", 40, BestWeekScore),
      Rule("streak_3", 3, MaxStreak),
      Rule("streak_5", 5, MaxStreak),
      Rule("streak_10", 10, MaxStreak),
      Rule("total_100", 100, TotalUniquePlants) ]
  }

  function RuleIds(rules: seq<Rule>): (ids: seq<string>)
    ensures |ids| == |rules| && forall i :: 0 <= i < |rules| ==> ids[i] == rules[i].id
  {
    seq(|rules|, i requires 0 <= i < |rules| => rules[i].id)
  }

  /** The value of a measure for the user. */
  function MeasureOf(m: Measure, stats: AllTimeStats, maxStreak: nat): nat {
    match m
    case TotalLogs => stats.totalLogs
    case BestWeekScore => stats.bestWeekScore
    case MaxStreak => maxStreak
    case TotalUniquePlants => stats.totalUniquePlants
  }

  /** One check: push `id` when it is not held yet and its condition is reached. */
  function Award(acc: seq<string>, existing: seq<string>, id: string, reached: bool): (r: seq<string>)
    ensures r == acc || r == acc + [id]
  {
    if id !in existing && reached then acc + [id] else acc
  }

  /** The ids pushed by running the first `k` checks in order. */
  function Earned(k: nat, stats: AllTimeStats, maxStreak: nat, existing: seq<string>): (ids: seq<string>)
    requires k <= |Rules()|
    ensures |ids| <= k
  {
    if k == 0 then []
    else
      var r := Rules()[k - 1];
      Award(Earned(k - 1, stats, maxStreak, existing), existing, r.id, MeasureOf(r.measure, stats, maxStreak) >= r.threshold)
  }

  /** What `checkAchievements` returns on day `today`. */
  function NewAchievements(stats: AllTimeStats, summaries: seq<WeeklySummary>, existing: seq<string>, today: Day): seq<string> {
    var streak := Stats.Streak(summaries, today);
    Earned(|Rules()|, stats, Max(streak.0, streak.1), existing)
  }

  /** The nine checks, one after the other, push what the rule table earns. */
  lemma EarnedByChecks(stats: AllTimeStats, maxStreak: nat, existing: seq<string>)
    ensures Earned(9, stats, maxStreak, existing) ==
      var a1 := Award([], existing, "first_plant", stats.totalLogs > 0);
      var a2 := Award(a1, existing, "reached_10", stats.bestWeekScore >= 10);
      var a3 := Award(a2, existing, "reached_20", stats.bestWeekScore >= 20);
      var a4 := Award(a3, existing, "reached_30", stats.bestWeekScore >= 30);
      var a5 := Award(a4, existing, "reached_40", stats.bestWeekScore >= 40);
      var a6 := Award(a5, existing, "streak_3", maxStreak >= 3);
      var a7 := Award(a6, existing, "streak_5", maxStreak >= 5);
      var a8 := Award(a7, existing, "streak_10", maxStreak >= 10);
      Award(a8, existing, "total_100", stats.totalUniquePlants >= 100)
  {
    assert Earned(1, stats, maxStreak, existing) == Award([], existing, "first_plant", stats.totalLogs > 0);
    assert Earned(2, stats, maxStreak, existing) == Award(Earned(1, stats, maxStreak, existing), existing, "reached_10", stats.bestWeekScore >= 10);
    assert Earned(3, stats, maxStreak, existing) == Award(Earned(2, stats, maxStreak, existing), existing, "reached_20", stats.bestWeekScore >= 20);
    assert Earned(4, stats, maxStreak, existing) == Award(Earned(3, stats, maxStreak, existing), existing, "reached_30", stats.bestWeekScore >= 30);
    assert Earned(5, stats, maxStreak, existing) == Award(Earned(4, stats, maxStreak, existing), existing, "reached_40", stats.bestWeekScore >= 40);
    assert Earned(6, stats, maxStreak, existing) == Award(Earned(5, stats, maxStreak, existing), existing, "streak_3", maxStreak >= 3);
    assert Earned(7, stats, maxStreak, existing) == Award(Earned(6, stats, maxStreak, existing), existing, "streak_5", maxStreak >= 5);
    assert Earned(8, stats, maxStreak, existing) == Award(Earned(7, stats, maxStreak, existing), existing, "streak_10", maxStreak >= 10);
    assert Earned(9, stats, maxStreak, existing) == Award(Earned(8, stats, maxStreak, existing), existing, "total_100", stats.totalUniquePlants >= 100);
  }

  /** `checkAchievements(userStats, weeklySummaries, existingAchievements)`
      with the clock of its streak calculation read as `today`. */
  method CheckAchievements(userStats: AllTimeStats, weeklySummaries: seq<WeeklySummary>,
                           existingAchievements: seq<string>, today: Day)
    returns (newAchievements: seq<string>)
    ensures newAchievements == NewAchievements(userStats, weeklySummaries, existingAchievements, today)
  {
    newAchievements := [];

    // First plant
    newAchievements := Award(newAchievements, existingAchievements, "first_plant", userStats.totalLogs > 0);

    // Milestone achievements
    var bestScore := userStats.bestWeekScore;
    newAchievements := Award(newAchievements, existingAchievements, "reached_10", bestScore >= 10);
    newAchievements := Award(newAchievements, existingAchievements, "reached_20", bestScore >= 20);
    newAchievements := Award(newAchievements, existingAchievements, "reached_30", bestScore >= 30);
    newAchievements := Award(newAchievements, existingAchievements, "reached_40", bestScore >= 40);

    // Streak achievements
    var currentStreak, longestStreak := CalculateStreak(weeklySummaries, today);
    var maxStreak := Max(currentStreak, longestStreak);
    newAchievements := Award(newAchievements, existingAchievements, "streak_3", maxStreak >= 3);
    newAchievements := Award(newAchievements, existingAchievements, "streak_5", maxStreak >= 5);
    newAchievements := Award(newAchievements, existingAchievements, "streak_10", maxStreak >= 10);

    // Total unique plants
    newAchievements := Award(newAchievements, existingAchievements, "total_100", userStats.totalUniquePlants >= 100);
    EarnedByChecks(userStats, maxStreak, existingAchievements);
  }

  // ---------------------------------------------------------------------
  // What the checks award
  // ---------------------------------------------------------------------

  /** Check `i` fires: its id is not held and its measure reached the threshold. */
  predicate Fires(i: nat, stats: AllTimeStats, maxStreak: nat, existing: seq<string>)
    requires i < |Rules()|
  {
    Rules()[i].id !in existing && MeasureOf(Rules()[i].measure, stats, maxStreak) >= Rules()[i].threshold
  }

  /** An id is pushed exactly when one of the checks run so far fires for it. */
  lemma {:induction false} EarnedMembers(k: nat, stats: AllTimeStats, maxStreak: nat, existing: seq<string>)
    requires k <= |Rules()|
    ensures forall id :: id in Earned(k, stats, maxStreak, existing) <==>
      exists i :: 0 <= i < k && Rules()[i].id == id && Fires(i, stats, maxStreak, existing)
  {
    if k > 0 {
      EarnedMembers(k - 1, stats, maxStreak, existing);
    }
  }

  /** The checks have pairwise distinct ids. */
  lemma RuleIdsDistinct()
    ensures NoDuplicates(RuleIds(Rules()))
  {
  }

  /** No id is pushed twice. */
  lemma {:induction false} EarnedNoDuplicates(k: nat, stats: AllTimeStats, maxStreak: nat, existing: seq<string>)
    requires k <= |Rules()|
    ensures NoDuplicates(Earned(k, stats, maxStreak, existing))
  {
    if k > 0 {
      var before := Earned(k - 1, stats, maxStreak, existing);
      EarnedNoDuplicates(k - 1, stats, maxStreak, existing);
      EarnedMembers(k - 1, stats, maxStreak, existing);
      RuleIdsDistinct();
      var id := Rules()[k - 1].id;
      assert forall i :: 0 <= i < k - 1 ==> Rules()[i].id != id by {
        assert forall i :: 0 <= i < k - 1 ==> RuleIds(Rules())[i] != RuleIds(Rules())[k - 1];
      }
      assert id !in before;
    }
  }

  /** What `checkAchievements` awards: exactly the ids of the checks whose
      measure is reached and that the user does not hold yet, each once. */
  lemma NewAchievementsMeaning(stats: AllTimeStats, summaries: seq<WeeklySummary>, existing: seq<string>, today: Day)
    ensures var streak := Stats.Streak(summaries, today);
      forall id :: id in NewAchievements(stats, summaries, existing, today) <==>
        (id !in existing &&
         exists i :: 0 <= i < |Rules()| && Rules()[i].id == id &&
                     MeasureOf(Rules()[i].measure, stats, Max(streak.0, streak.1)) >= Rules()[i].threshold)
    ensures NoDuplicates(NewAchievements(stats, summaries, existing, today))
  {
    var streak := Stats.Streak(summaries, today);
    EarnedMembers(|Rules()|, stats, Max(streak.0, streak.1), existing);
    EarnedNoDuplicates(|Rules()|, stats, Max(streak.0, streak.1), existing);
  }

  /** Running the checks again with their own ids saved pushes nothing. */
  lemma EarnedIdempotent(stats: AllTimeStats, maxStreak: nat, existing: seq<string>)
    ensures Earned(|Rules()|, stats, maxStreak, existing + Earned(|Rules()|, stats, maxStreak, existing)) == []
  {
    var first := Earned(|Rules()|, stats, maxStreak, existing);
    var again := Earned(|Rules()|, stats, maxStreak, existing + first);
    EarnedMembers(|Rules()|, stats, maxStreak, existing);
    EarnedMembers(|Rules()|, stats, maxStreak, existing + first);
    forall i | 0 <= i < |Rules()|
      ensures !Fires(i, stats, maxStreak, existing + first)
    {
      if Fires(i, stats, maxStreak, existing) {
        assert Rules()[i].id in first;
      }
    }
    assert Elements(again) == {};
    EarnedNoDuplicates(|Rules()|, stats, maxStreak, existing + first);
    ElementsOfNoDuplicates(again);
  }

  /** Saving the awarded ids and checking again awards nothing more. */
  lemma NewAchievementsIdempotent(stats: AllTimeStats, summaries: seq<WeeklySummary>, existing: seq<string>, today: Day)
    ensures NewAchievements(stats, summaries, existing + NewAchievements(stats, summaries, existing, today), today) == []
  {
    var streak := Stats.Streak(summaries, today);
    EarnedIdempotent(stats, Max(streak.0, streak.1), existing);
  }

  /** Every statistic of `more` is at least that of `fewer`. */
  predicate StatsAtLeast(more: AllTimeStats, fewer: AllTimeStats) {
    more.totalLogs >= fewer.totalLogs && more.bestWeekScore >= fewer.bestWeekScore
    && more.totalUniquePlants >= fewer.totalUniquePlants
  }

  /** Larger statistics award every id that smaller ones award. */
  lemma EarnedMonotone(more: AllTimeStats, fewer: AllTimeStats, moreStreak: nat, fewerStreak: nat, existing: seq<string>)
    requires StatsAtLeast(more, fewer) && moreStreak >= fewerStreak
    ensures Elements(Earned(|Rules()|, fewer, fewerStreak, existing)) <= Elements(Earned(|Rules()|, more, moreStreak, existing))
  {
    EarnedMembers(|Rules()|, fewer, fewerStreak, existing);
    EarnedMembers(|Rules()|, more, moreStreak, existing);
    forall id | id in Earned(|Rules()|, fewer, fewerStreak, existing)
      ensures id in Earned(|Rules()|, more, moreStreak, existing)
    {
      var i :| 0 <= i < |Rules()| && Rules()[i].id == id && Fires(i, fewer, fewerStreak, existing);
      assert Fires(i, more, moreStreak, existing);
    }
  }

  /** Checks on the same measure form a ladder: when a higher threshold is
      awarded, each lower one is awarded in the same call or already held. */
  lemma ThresholdLadder(stats: AllTimeStats, maxStreak: nat, existing: seq<string>, i: nat, j: nat)
    requires i < |Rules()| && j < |Rules()|
    requires Rules()[i].measure == Rules()[j].measure && Rules()[i].threshold <= Rules()[j].threshold
    requires Rules()[j].id in Earned(|Rules()|, stats, maxStreak, existing)
    ensures Rules()[i].id in existing + Earned(|Rules()|, stats, maxStreak, existing)
  {
    EarnedMembers(|Rules()|, stats, maxStreak, existing);
    RuleIdsDistinct();
    var j' :| 0 <= j' < |Rules()| && Rules()[j'].id == Rules()[j].id && Fires(j', stats, maxStreak, existing);
    assert RuleIds(Rules())[j'] == RuleIds(Rules())[j];
    if Rules()[i].id !in existing {
      assert Fires(i, stats, maxStreak, existing);
    }
  }

  /** The ids of the achievement catalog, in declaration order. */
  lemma AchievementIdsListed()
    ensures AchievementIds() ==
      ["first_plant", "reached_10", "reached_20", "reached_30", "reached_40",
       "week_streak_2", "week_streak_4", "week_streak_8", "week_streak_12",
       "try_5_categories", "try_10_categories", "first_challenge_win", "win_5_challenges",
       "win_10_challenges", "total_100", "first_referral", "refer_5_friends", "refer_10_friends"]
  {
  }

  /** The streak checks award ids that have no entry in the achievement
      catalog, and `ACHIEVEMENTS[id.toUpperCase()]` finds nothing for them;
      every other check awards a catalog id that the look-up finds. */
  lemma StreakIdsOutsideCatalog()
    ensures forall i :: 0 <= i < |Rules()| ==> (Rules()[i].id in AchievementIds() <==> Rules()[i].measure != MaxStreak)
    ensures forall i :: 0 <= i < |Rules()| ==>
              (LookupAchievement(ToUpper(Rules()[i].id)).Some? <==> Rules()[i].measure != MaxStreak)
  {
    forall i | 0 <= i < |Rules()|
      ensures Rules()[i].id in AchievementIds() <==> Rules()[i].measure != MaxStreak
      ensures LookupAchievement(ToUpper(Rules()[i].id)).Some? <==> Rules()[i].measure != MaxStreak
    {
      RuleLookup(i);
    }
  }

  lemma RuleLookup(i: nat)
    requires i < |Rules()|
    ensures Rules()[i].id in AchievementIds() <==> Rules()[i].measure != MaxStreak
    ensures LookupAchievement(ToUpper(Rules()[i].id)).Some? <==> Rules()[i].measure != MaxStreak
  {
    var id := Rules()[i].id;
    if Rules()[i].measure == MaxStreak {
      StreakRuleNotFound(i);
      forall j | 0 <= j < |AchievementIds()|
        ensures AchievementIds()[j] != id
      {
        LookupByUppercasedId(j);
      }
    } else {
      var j := if i < 5 then i else 14;
      assert AchievementIds()[j] == Achievements()[j].1.id == id;
      LookupByUppercasedId(j);
    }
  }

  /** No key of the catalog starts with `S`. */
  lemma NoKeyStartsWithS(j: nat)
    requires j < |Achievements()|
    ensures Achievements()[j].0 != [] && Achievements()[j].0[0] != 'S'
  {
  }

  /** No catalog key is the uppercased id of a streak check: those all
      start with `S`. */
  lemma StreakRuleNotFound(i: nat)
    requires i < |Rules()| && Rules()[i].measure == MaxStreak
    ensures LookupAchievement(ToUpper(Rules()[i].id)).None?
  {
    var id := Rules()[i].id;
    assert id[0] == 's';
    var key := ToUpper(id);
    assert key[0] == 'S';
    forall j | 0 <= j < |Achievements()|
      ensures Achievements()[j].0 != key
    {
      NoKeyStartsWithS(j);
    }
  }
}
