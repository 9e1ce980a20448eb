/** `calculateAllTimeStats` (core/src/stats/index.ts): one pass over a
    user's weekly summaries collecting every plant id ever logged, the total
    number of logs and the best week. */
module StatsAllTime {
  import opened Wrappers
  import opened Collections
  import opened Types

  /** Every plant id in the summaries' `uniquePlantIds` lists. */
  function PlantIds(summaries: seq<WeeklySummary>): set<string> {
    if summaries == [] then {}
    else PlantIds(summaries[..|summaries| - 1]) + Elements(summaries[|summaries| - 1].uniquePlantIds)
  }

  /** The sum of the summaries' `totalLogs`. */
  function SumLogs(summaries: seq<WeeklySummary>): nat {
    if summaries == [] then 0
    else SumLogs(summaries[..|summaries| - 1]) + summaries[|summaries| - 1].totalLogs
  }

  /** The sum of the lengths of the summaries' `uniquePlantIds` lists. */
  function SumPlantCounts(summaries: seq<WeeklySummary>): nat {
    if summaries == [] then 0
    else SumPlantCounts(summaries[..|summaries| - 1]) + |summaries[|summaries| - 1].uniquePlantIds|
  }

  /** The best score and its week after scanning the summaries in order: a
      later week replaces the best only with a strictly higher score. */
  function Best(summaries: seq<WeeklySummary>): (nat, Option<string>) {
    if summaries == [] then (0, None)
    else
      var before := Best(summaries[..|summaries| - 1]);
      var last := summaries[|summaries| - 1];
      if last.score > before.0 then (last.score, Some(last.weekId)) else before
  }

  /** What `calculateAllTimeStats(userId, weeklySummaries)` returns, without
      the average score and the update time. */
  function AllTimeStatsOf(userId: string, summaries: seq<WeeklySummary>): AllTimeStats {
    var best := Best(summaries);
    AllTimeStats(userId, |PlantIds(summaries)|, SumLogs(summaries), |summaries|, best.0, best.1)
  }

  /** `calculateAllTimeStats(userId, weeklySummaries)`: the `forEach` pass, the
      inner `forEach` adding each plant id to the set. */
  method CalculateAllTimeStats(userId: string, weeklySummaries: seq<WeeklySummary>) returns (stats: AllTimeStats)
    ensures stats == AllTimeStatsOf(userId, weeklySummaries)
  {
    var allUniquePlants: set<string> := {};
    var totalLogs := 0;
    var bestWeekScore := 0;
    var bestWeekId: Option<string> := None;

    for i := 0 to |weeklySummaries|
      invariant allUniquePlants == PlantIds(weeklySummaries[..i])
      invariant totalLogs == SumLogs(weeklySummaries[..i])
      invariant (bestWeekScore, bestWeekId) == Best(weeklySummaries[..i])
    {
      var summary := weeklySummaries[i];
      assert weeklySummaries[..i + 1][..i] == weeklySummaries[..i];
      for k := 0 to |summary.uniquePlantIds|
        invariant allUniquePlants == PlantIds(weeklySummaries[..i]) + Elements(summary.uniquePlantIds[..k])
      {
        assert summary.uniquePlantIds[..k + 1] == summary.uniquePlantIds[..k] + [summary.uniquePlantIds[k]];
        allUniquePlants := allUniquePlants + {summary.uniquePlantIds[k]};
      }
      assert summary.uniquePlantIds[..|summary.uniquePlantIds|] == summary.uniquePlantIds;
      totalLogs := totalLogs + summary.totalLogs;

      if summary.score > bestWeekScore {
        bestWeekScore := summary.score;
        bestWeekId := Some(summary.weekId);
      }
    }
    assert weeklySummaries[..|weeklySummaries|] == weeklySummaries;

    stats := AllTimeStats(userId, |allUniquePlants|, totalLogs, |weeklySummaries|, bestWeekScore, bestWeekId);
  }

  // ---------------------------------------------------------------------
  // Properties
  // ---------------------------------------------------------------------

  /** A plant id is counted exactly when some summary lists it. */
  lemma {:induction false} PlantIdsMembers(summaries: seq<WeeklySummary>)
    ensures forall p :: p in PlantIds(summaries) <==>
      exists i :: 0 <= i < |summaries| && p in summaries[i].uniquePlantIds
  {
    if summaries != [] {
      var n := |summaries| - 1;
      PlantIdsMembers(summaries[..n]);
      assert forall i :: 0 <= i < n ==> summaries[..n][i] == summaries[i];
    }
  }

  /** The number of distinct plants is at most the sum of the weekly counts. */
  lemma {:induction false} PlantIdsBound(summaries: seq<WeeklySummary>)
    ensures |PlantIds(summaries)| <= SumPlantCounts(summaries)
  {
    if summaries != [] {
      var n := |summaries| - 1;
      PlantIdsBound(summaries[..n]);
      ElementsBound(summaries[n].uniquePlantIds);
      SetUnionBound(PlantIds(summaries[..n]), Elements(summaries[n].uniquePlantIds));
    }
  }

  lemma SetUnionBound<T>(a: set<T>, b: set<T>)
    ensures |a + b| <= |a| + |b|
  {
    assert |a + b| == |a| + |b| - |a * b|;
  }

  /** The best score is at least every week's score. */
  lemma {:induction false} BestIsMaximum(summaries: seq<WeeklySummary>)
    ensures forall i :: 0 <= i < |summaries| ==> summaries[i].score <= Best(summaries).0
  {
    if summaries != [] {
      var n := |summaries| - 1;
      BestIsMaximum(summaries[..n]);
      assert forall i :: 0 <= i < n ==> summaries[..n][i] == summaries[i];
    }
  }

  /** The best week is recorded exactly when some week scored, and it is the
      first week that reached the best score. */
  lemma {:induction false} BestIsFirstAttained(summaries: seq<WeeklySummary>)
    ensures Best(summaries).1.None? <==> Best(summaries).0 == 0
    ensures Best(summaries).1.Some? ==>
      exists i :: 0 <= i < |summaries| && summaries[i].weekId == Best(summaries).1.value
        && summaries[i].score == Best(summaries).0
        && forall j :: 0 <= j < i ==> summaries[j].score < Best(summaries).0
  {
    if summaries != [] {
      var n := |summaries| - 1;
      BestIsFirstAttained(summaries[..n]);
      BestIsMaximum(summaries[..n]);
      assert forall i :: 0 <= i < n ==> summaries[..n][i] == summaries[i];
      var before := Best(summaries[..n]);
      if summaries[n].score > before.0 {
        assert forall j :: 0 <= j < n ==> summaries[j].score < summaries[n].score;
      } else if before.1.Some? {
        var i :| 0 <= i < n && summaries[..n][i].weekId == before.1.value && summaries[..n][i].score == before.0
          && forall j :: 0 <= j < i ==> summaries[..n][j].score < before.0;
        assert summaries[i] == summaries[..n][i];
      }
    }
  }

  /** Total logs add up over consecutive runs of weeks. */
  lemma {:induction false} SumLogsConcat(a: seq<WeeklySummary>, b: seq<WeeklySummary>)
    ensures SumLogs(a + b) == SumLogs(a) + SumLogs(b)
    decreases |b|
  {
    if b != [] {
      var n := |b| - 1;
      assert (a + b)[..|a + b| - 1] == a + b[..n];
      SumLogsConcat(a, b[..n]);
    } else {
      assert a + b == a;
    }
  }
}
