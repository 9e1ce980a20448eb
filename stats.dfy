/** Streaks, achievements and all-time statistics computed from a user's
    weekly summaries (core/src/stats/index.ts). The clock `new Date()` of the
    streak calculation is the parameter `today`. */
module Stats {
  import opened Wrappers
  import opened Text
  import opened Calendar
  import opened Collections
  import opened Types
  import opened Scoring
  import opened IsoWeekDates

  // ---------------------------------------------------------------------
  // Filtering and sorting week ids
  // ---------------------------------------------------------------------

  /** `summaries.filter(s => s.score > 0)`, keeping only the week ids. */
  function PositiveWeekIds(summaries: seq<WeeklySummary>): (ids: seq<string>)
    ensures |ids| <= |summaries|
  {
    if summaries == [] then []
    else if summaries[0].score > 0 then [summaries[0].weekId] + PositiveWeekIds(summaries[1..])
    else PositiveWeekIds(summaries[1..])
  }

  /** The ids kept are exactly the week ids of the summaries that scored. */
  lemma {:induction false} PositiveWeekIdsMembers(summaries: seq<WeeklySummary>)
    ensures forall id :: id in PositiveWeekIds(summaries) <==>
      exists i :: 0 <= i < |summaries| && summaries[i].score > 0 && summaries[i].weekId == id
  {
    if summaries != [] {
      PositiveWeekIdsMembers(summaries[1..]);
      assert forall i :: 0 < i < |summaries| ==> summaries[i] == summaries[1..][i - 1];
    }
  }

  lemma {:induction false} PositiveWeekIdsConcat(a: seq<WeeklySummary>, b: seq<WeeklySummary>)
    ensures PositiveWeekIds(a + b) == PositiveWeekIds(a) + PositiveWeekIds(b)
  {
    if a == [] {
      assert a + b == b;
    } else {
      var ab := a + b;
      assert ab[0] == a[0];
      assert ab[1..] == a[1..] + b;
      PositiveWeekIdsConcat(a[1..], b);
    }
  }

  /** Descending order by code unit, as `b.weekId.localeCompare(a.weekId)` sorts labels. */
  predicate SortedDesc(s: seq<string>) {
    forall i, j :: 0 <= i < j < |s| ==> !LexLess(s[i], s[j])
  }

  /** Insert `x` into a descending list behind the entries not below it. */
  function Insert(x: string, s: seq<string>): (r: seq<string>)
    ensures multiset(r) == multiset(s) + multiset{x}
  {
    if s == [] then [x]
    else if LexLess(s[0], x) then [x] + s
    else
      assert s == [s[0]] + s[1..];
      [s[0]] + Insert(x, s[1..])
  }

  lemma {:induction false} InsertSorted(x: string, s: seq<string>)
    requires SortedDesc(s)
    ensures SortedDesc(Insert(x, s))
  {
    if s == [] {
    } else if LexLess(s[0], x) {
      forall j | 0 <= j < |s| ensures !LexLess(x, s[j]) {
        LexLessAsymmetric(s[0], x);
        if j > 0 && LexLess(x, s[j]) {
          LexLessTransitive(s[0], x, s[j]);
        }
      }
    } else {
      var tail := Insert(x, s[1..]);
      InsertSorted(x, s[1..]);
      forall j | 0 <= j < |tail| ensures !LexLess(s[0], tail[j]) {
        assert tail[j] in multiset(tail);
        if tail[j] != x {
          assert tail[j] in multiset(s[1..]);
          var k :| 0 <= k < |s[1..]| && s[1..][k] == tail[j];
          assert s[k + 1] == tail[j];
        }
      }
    }
  }

  /** The sort of the week ids, descending. */
  function SortDesc(s: seq<string>): (r: seq<string>)
    ensures multiset(r) == multiset(s)
    ensures |r| == |s|
  {
    if s == [] then []
    else
      assert s == [s[0]] + s[1..];
      Insert(s[0], SortDesc(s[1..]))
  }

  lemma {:induction false} SortDescSorted(s: seq<string>)
    ensures SortedDesc(SortDesc(s))
  {
    if s != [] {
      SortDescSorted(s[1..]);
      InsertSorted(s[0], SortDesc(s[1..]));
    }
  }

  /** The head of a descending list is not below any of its entries. */
  lemma SortedHeadIsMax(a: seq<string>, x: string)
    requires SortedDesc(a) && x in a
    ensures !LexLess(a[0], x)
  {
    var k :| 0 <= k < |a| && a[k] == x;
    if k == 0 {
      LexLessIrreflexive(x);
    }
  }

  lemma SortedDescTail(a: seq<string>)
    requires SortedDesc(a) && a != []
    ensures SortedDesc(a[1..])
  {
    forall i, j | 0 <= i < j < |a| - 1 ensures !LexLess(a[1..][i], a[1..][j]) {
      assert a[1..][i] == a[i + 1] && a[1..][j] == a[j + 1];
    }
  }

  /** Two descending lists of the same labels start with the same label. */
  lemma SortedDescSameHead(a: seq<string>, b: seq<string>)
    requires SortedDesc(a) && SortedDesc(b) && multiset(a) == multiset(b) && a != []
    ensures b != [] && a[0] == b[0]
  {
    assert a[0] in multiset(b);
    assert b[0] in multiset(a);
    SortedHeadIsMax(b, a[0]);
    SortedHeadIsMax(a, b[0]);
    if a[0] != b[0] {
      LexLessTotal(a[0], b[0]);
    }
  }

  /** Removing the same first element from two permutations leaves permutations. */
  lemma PermutationTails<T>(a: seq<T>, b: seq<T>)
    requires a != [] && b != [] && a[0] == b[0] && multiset(a) == multiset(b)
    ensures multiset(a[1..]) == multiset(b[1..])
  {
    assert a == [a[0]] + a[1..] && b == [b[0]] + b[1..];
    assert multiset(a[1..]) == multiset(a) - multiset{a[0]};
    assert multiset(b[1..]) == multiset(b) - multiset{b[0]};
  }

  /** A descending order of a multiset of labels is unique. */
  lemma {:induction false} SortedDescUnique(a: seq<string>, b: seq<string>)
    requires SortedDesc(a) && SortedDesc(b) && multiset(a) == multiset(b)
    ensures a == b
  {
    if a == [] {
      assert |b| == |multiset(b)| == 0;
    } else {
      SortedDescSameHead(a, b);
      PermutationTails(a, b);
      SortedDescTail(a);
      SortedDescTail(b);
      SortedDescUnique(a[1..], b[1..]);
      assert a == [a[0]] + a[1..] && b == [b[0]] + b[1..];
    }
  }

  /** Sorting forgets the order of its input. */
  lemma SortDescOfPermutation(a: seq<string>, b: seq<string>)
    requires multiset(a) == multiset(b)
    ensures SortDesc(a) == SortDesc(b)
  {
    SortDescSorted(a);
    SortDescSorted(b);
    SortedDescUnique(SortDesc(a), SortDesc(b));
  }

  /** Taking the first element of `a` out of `b`, where it sits at index `k`,
      leaves a permutation of the rest of `a`. */
  lemma PermutationRemove<T>(a: seq<T>, b: seq<T>, k: nat)
    requires a != [] && k < |b| && b[k] == a[0] && multiset(a) == multiset(b)
    ensures multiset(a[1..]) == multiset(b[..k] + b[k + 1..])
  {
    assert a == [a[0]] + a[1..];
    assert b == b[..k] + [b[k]] + b[k + 1..];
    assert multiset(a[1..]) == multiset(a) - multiset{a[0]};
    assert multiset(b[..k] + b[k + 1..]) == multiset(b) - multiset{b[k]};
  }

  /** A sequence is its prefix, its `k`th element and its suffix. */
  lemma SplitAt<T>(b: seq<T>, k: nat)
    requires k < |b|
    ensures b == b[..k] + ([b[k]] + b[k + 1..])
  {
  }

  /** The positive ids around a summary taken out of the middle. */
  lemma PositiveWeekIdsAround(p: seq<WeeklySummary>, x: WeeklySummary, q: seq<WeeklySummary>)
    ensures PositiveWeekIds(p + ([x] + q)) == PositiveWeekIds(p) + (PositiveWeekIds([x]) + PositiveWeekIds(q))
  {
    PositiveWeekIdsConcat(p, [x] + q);
    PositiveWeekIdsConcat([x], q);
  }

  /** Counted as a multiset, the positive ids of `b` are those of its `k`th
      summary plus those of the others. */
  lemma PositiveWeekIdsRemove(b: seq<WeeklySummary>, k: nat)
    requires k < |b|
    ensures multiset(PositiveWeekIds(b)) == multiset(PositiveWeekIds([b[k]])) + multiset(PositiveWeekIds(b[..k] + b[k + 1..]))
  {
    SplitAt(b, k);
    PositiveWeekIdsAround(b[..k], b[k], b[k + 1..]);
    PositiveWeekIdsConcat(b[..k], b[k + 1..]);
  }

  /** Permuting the summaries permutes their positive week ids. */
  lemma {:induction false} PositiveWeekIdsOfPermutation(a: seq<WeeklySummary>, b: seq<WeeklySummary>)
    requires multiset(a) == multiset(b)
    ensures multiset(PositiveWeekIds(a)) == multiset(PositiveWeekIds(b))
    decreases |a|
  {
    if a == [] {
      assert |b| == |multiset(b)| == 0;
    } else {
      assert a[0] in multiset(b);
      var k :| 0 <= k < |b| && b[k] == a[0];
      PermutationRemove(a, b, k);
      PositiveWeekIdsOfPermutation(a[1..], b[..k] + b[k + 1..]);
      PositiveWeekIdsRemove(b, k);
      PositiveWeekIdsRemove(a, 0);
      assert a[..0] + a[1..] == a[1..];
    }
  }

  // ---------------------------------------------------------------------
  // Streaks
  // ---------------------------------------------------------------------

  /** `Math.max` */
  function Max(a: nat, b: nat): (m: nat)
    ensures m >= a && m >= b && (m == a || m == b)
  {
    if a >= b then a else b
  }

  /** How many leading entries of `ws` follow the chain that starts at
      `expected` and steps back one week per entry (the first loop). */
  function CurrentRun(ws: seq<string>, expected: string, previous: string -> string): (n: nat)
    ensures n <= |ws|
    ensures n > 0 ==> ws[0] == expected
  {
    if ws != [] && ws[0] == expected then 1 + CurrentRun(ws[1..], previous(expected), previous) else 0
  }

  /** The length of the run of entries, each one week before the one in
      front of it, that ends at entry `i` (the second loop's `tempStreak`). */
  function RunEnd(ws: seq<string>, i: nat, next: string -> string): (n: nat)
    requires i < |ws|
    ensures 1 <= n <= i + 1
  {
    if i == 0 then 1
    else if ws[i - 1] == next(ws[i]) then RunEnd(ws, i - 1, next) + 1
    else 1
  }

  /** The longest run that ends among the first `k` entries. */
  function LongestRun(ws: seq<string>, k: nat, next: string -> string): (n: nat)
    requires k <= |ws|
    ensures n <= k
    ensures k > 0 ==> 1 <= n && exists i :: 0 <= i < k && RunEnd(ws, i, next) == n
    ensures forall i :: 0 <= i < k ==> RunEnd(ws, i, next) <= n
  {
    if k == 0 then 0 else Max(LongestRun(ws, k - 1, next), RunEnd(ws, k - 1, next))
  }

  /** The positive-score week ids in the order `calculateStreak` scans them. */
  function SortedWeekIds(summaries: seq<WeeklySummary>): seq<string> {
    SortDesc(PositiveWeekIds(summaries))
  }

  /** What `calculateStreak` returns on day `today`: (currentStreak, longestStreak). */
  function Streak(summaries: seq<WeeklySummary>, today: Day): (nat, nat) {
    if |summaries| == 0 then (0, 0)
    else
      var ws := SortedWeekIds(summaries);
      (CurrentRun(ws, GetWeekId(today), PreviousWeekId), LongestRun(ws, |ws|, NextWeekId))
  }

  /** `calculateStreak(weeklySummaries)` with the clock read as `today`.
      The two loops are the methods below; the first loop's increments of
      `tempStreak` are dead, since the second loop starts it again from 0. */
  method CalculateStreak(weeklySummaries: seq<WeeklySummary>, today: Day)
    returns (currentStreak: nat, longestStreak: nat)
    ensures (currentStreak, longestStreak) == Streak(weeklySummaries, today)
  {
    if |weeklySummaries| == 0 {
      return 0, 0;
    }
    var sorted := SortDesc(PositiveWeekIds(weeklySummaries));
    var currentWeekId := GetWeekId(today);
    currentStreak := CountCurrentStreak(sorted, currentWeekId, PreviousWeekId);
    longestStreak := CountLongestStreak(sorted, NextWeekId);
  }

  /** The first loop: walk the sorted ids while each is the expected week,
      stepping the expected week back one week at a time. */
  method CountCurrentStreak(sorted: seq<string>, currentWeekId: string, previous: string -> string)
    returns (currentStreak: nat)
    ensures currentStreak == CurrentRun(sorted, currentWeekId, previous)
  {
    currentStreak := 0;
    var expectedWeek := currentWeekId;
    var n := 0;
    while n < |sorted|
      invariant n <= |sorted| && currentStreak == n
      invariant currentStreak + CurrentRun(sorted[n..], expectedWeek, previous) == CurrentRun(sorted, currentWeekId, previous)
    {
      if sorted[n] == expectedWeek {
        currentStreak := currentStreak + 1;
        expectedWeek := previous(expectedWeek);
        assert sorted[n..][1..] == sorted[n + 1..];
        n := n + 1;
      } else {
        break;
      }
    }
  }

  /** The second loop: the length of the current run of consecutive weeks is
      `tempStreak`, and `longestStreak` takes the maximum whenever a run ends. */
  method CountLongestStreak(sorted: seq<string>, next: string -> string) returns (longestStreak: nat)
    ensures longestStreak == LongestRun(sorted, |sorted|, next)
  {
    longestStreak := 0;
    var tempStreak := 0;
    var i := 0;
    while i < |sorted|
      invariant i <= |sorted|
      invariant i == 0 ==> tempStreak == 0 && longestStreak == 0
      invariant i > 0 ==> tempStreak == RunEnd(sorted, i - 1, next)
      invariant i > 0 ==> Max(longestStreak, tempStreak) == LongestRun(sorted, i, next)
    {
      if i == 0 {
        tempStreak := 1;
      } else {
        var expectedPrevious := next(sorted[i]);
        if sorted[i - 1] == expectedPrevious {
          tempStreak := tempStreak + 1;
        } else {
          longestStreak := Max(longestStreak, tempStreak);
          tempStreak := 1;
        }
      }
      i := i + 1;
    }
    longestStreak := Max(longestStreak, tempStreak);
  }

  // ---------------------------------------------------------------------
  // What the two streak counts mean
  // ---------------------------------------------------------------------

  /** `n` labels, starting at `start`, each one `step` after the one before. */
  function Chain(start: string, n: nat, step: string -> string): (c: seq<string>)
    ensures |c| == n
    decreases n
  {
    if n == 0 then [] else [start] + Chain(step(start), n - 1, step)
  }

  /** The first loop counts at least `n` exactly when the first `n` ids are
      the chain that starts at the expected week and steps back. */
  lemma {:induction false} CurrentRunIsChain(ws: seq<string>, expected: string, previous: string -> string, n: nat)
    ensures CurrentRun(ws, expected, previous) >= n <==> n <= |ws| && ws[..n] == Chain(expected, n, previous)
  {
    if n > 0 && ws != [] && ws[0] == expected {
      CurrentRunIsChain(ws[1..], previous(expected), previous, n - 1);
      if n <= |ws| {
        assert ws[..n] == [ws[0]] + ws[1..][..n - 1];
      }
    } else if n > 0 && ws != [] && n <= |ws| {
      assert ws[..n][0] != Chain(expected, n, previous)[0];
    }
  }

  /** The `m` entries ending at entry `i` each come one week before the entry in front of them. */
  predicate LinkedRun(ws: seq<string>, i: nat, m: nat, next: string -> string)
    requires i < |ws|
  {
    m <= i + 1 && forall j :: i - m < j < i ==> ws[j] == next(ws[j + 1])
  }

  /** `tempStreak` reaches `m` at entry `i` exactly when the `m` entries up to `i` are linked. */
  lemma {:induction false} RunEndIsLinked(ws: seq<string>, i: nat, next: string -> string, m: nat)
    requires i < |ws|
    ensures RunEnd(ws, i, next) >= m <==> LinkedRun(ws, i, m, next)
  {
    if i > 0 && ws[i - 1] == next(ws[i]) && m > 0 {
      RunEndIsLinked(ws, i - 1, next, m - 1);
    } else if i > 0 && m >= 2 {
      assert !LinkedRun(ws, i, m, next) by {
        assert i - m < i - 1 < i;
      }
    }
  }

  /** The second loop reaches `m` exactly when some `m` consecutive entries are linked. */
  lemma LongestRunIsLinked(ws: seq<string>, next: string -> string, m: nat)
    requires m >= 1
    ensures LongestRun(ws, |ws|, next) >= m <==> exists i :: 0 <= i < |ws| && LinkedRun(ws, i, m, next)
  {
    var n := LongestRun(ws, |ws|, next);
    if n >= m {
      var i :| 0 <= i < |ws| && RunEnd(ws, i, next) == n;
      RunEndIsLinked(ws, i, next, m);
    }
    if exists i :: 0 <= i < |ws| && LinkedRun(ws, i, m, next) {
      var i :| 0 <= i < |ws| && LinkedRun(ws, i, m, next);
      RunEndIsLinked(ws, i, next, m);
    }
  }

  /** Every one of the `n` weeks counting back from the week of `d` has a
      four-digit ISO year, the labels the week stepping reads back. */
  predicate FourDigitWeeksBack(d: Day, n: nat) {
    n == 0 || (1000 <= IsoYear(d) <= 9999 && (n == 1 || (d >= 7 && FourDigitWeeksBack(d - 7, n - 1))))
  }

  /** The labels of the week of `d` and the `n - 1` weeks before it, latest first. */
  function WeeksBack(d: Day, n: nat, labelOf: Day -> string): (ids: seq<string>)
    ensures |ids| == n
  {
    if n == 0 then []
    else if d < 7 then [labelOf(d)] + WeeksBack(d, n - 1, labelOf)
    else [labelOf(d)] + WeeksBack(d - 7, n - 1, labelOf)
  }

  /** `previous` steps from each label to the one after it, and `next` back. */
  predicate StepsAlong(ws: seq<string>, previous: string -> string, next: string -> string) {
    forall j :: 0 <= j < |ws| - 1 ==> previous(ws[j]) == ws[j + 1] && next(ws[j + 1]) == ws[j]
  }

  /** Putting a label in front of a list it steps into. */
  lemma StepsAlongCons(x: string, ws: seq<string>, previous: string -> string, next: string -> string)
    requires ws != [] && previous(x) == ws[0] && next(ws[0]) == x && StepsAlong(ws, previous, next)
    ensures StepsAlong([x] + ws, previous, next)
  {
    forall j | 0 <= j < |ws|
      ensures previous(([x] + ws)[j]) == ([x] + ws)[j + 1] && next(([x] + ws)[j + 1]) == ([x] + ws)[j]
    {
      if j > 0 {
        assert ([x] + ws)[j] == ws[j - 1];
      }
    }
  }

  /** A list that `previous` steps along is the chain from its head. */
  lemma {:induction false} ChainOfSteps(ws: seq<string>, previous: string -> string, next: string -> string)
    requires ws != [] && StepsAlong(ws, previous, next)
    ensures Chain(ws[0], |ws|, previous) == ws
  {
    if |ws| > 1 {
      assert StepsAlong(ws[1..], previous, next) by {
        forall j | 0 <= j < |ws| - 2 ensures previous(ws[1..][j]) == ws[1..][j + 1] && next(ws[1..][j + 1]) == ws[1..][j] {
          assert ws[1..][j] == ws[j + 1] && ws[1..][j + 1] == ws[j + 2];
        }
      }
      ChainOfSteps(ws[1..], previous, next);
      assert ws == [ws[0]] + ws[1..];
    }
  }

  /** The same weekday one week before `d`, as a fresh variable. */
  lemma SameDayWeekBefore(d: Day) returns (e: Day)
    requires d >= 7
    ensures e + 7 == d
  {
    e := d - 7;
  }

  /** One step back along `WeeksBack`. */
  lemma WeeksBackStep(d: Day, e: Day, n: nat, labelOf: Day -> string)
    requires e + 7 == d && n > 0
    ensures WeeksBack(d, n, labelOf) == [labelOf(d)] + WeeksBack(e, n - 1, labelOf)
  {
  }

  /** One step back along `FourDigitWeeksBack`. */
  lemma FourDigitStep(d: Day, e: Day, n: nat)
    requires e + 7 == d && n > 1 && FourDigitWeeksBack(d, n)
    ensures FourDigitWeeksBack(e, n - 1) && 1000 <= IsoYear(d) <= 9999 && 1000 <= IsoYear(e) <= 9999
  {
    assert FourDigitWeeksBack(e, n - 1);
  }

  /** The week steps between the labels of two neighbouring weeks with four-digit ISO years. */
  lemma NeighbourLabels(d: Day, e: Day)
    requires e + 7 == d && 1000 <= IsoYear(d) <= 9999 && 1000 <= IsoYear(e) <= 9999
    ensures PreviousWeekId(GetWeekId(d)) == GetWeekId(e) && NextWeekId(GetWeekId(e)) == GetWeekId(d)
  {
    PreviousWeekIdOfDay(d, e);
    NextWeekIdOfDay(e, d);
  }

  /** Labels that the week steps walk along stay so when the week before is added. */
  lemma StepsAlongWeekBefore(d: Day, e: Day, n: nat)
    requires e + 7 == d && n > 1 && FourDigitWeeksBack(d, n)
    requires StepsAlong(WeeksBack(e, n - 1, GetWeekId), PreviousWeekId, NextWeekId)
    ensures StepsAlong(WeeksBack(d, n, GetWeekId), PreviousWeekId, NextWeekId)
  {
    FourDigitStep(d, e, n);
    NeighbourLabels(d, e);
    WeeksBackStep(d, e, n, GetWeekId);
    StepsAlongCons(GetWeekId(d), WeeksBack(e, n - 1, GetWeekId), PreviousWeekId, NextWeekId);
  }

  /** With four-digit ISO years, `PreviousWeekId` and `NextWeekId` step
      between the labels of neighbouring weeks. */
  lemma {:induction false} FourDigitWeeksAreSteps(d: Day, n: nat)
    requires FourDigitWeeksBack(d, n)
    ensures StepsAlong(WeeksBack(d, n, GetWeekId), PreviousWeekId, NextWeekId)
    decreases n
  {
    if n > 1 {
      var e := SameDayWeekBefore(d);
      FourDigitStep(d, e, n);
      FourDigitWeeksAreSteps(e, n - 1);
      StepsAlongWeekBefore(d, e, n);
    }
  }

  /** The current streak is at least `n` exactly when the `n` latest scoring
      week ids are this week and the `n - 1` weeks before it. */
  lemma CurrentStreakMeaning(summaries: seq<WeeklySummary>, today: Day, n: nat)
    requires summaries != [] && FourDigitWeeksBack(today, n)
    ensures Streak(summaries, today).0 >= n <==>
      n <= |SortedWeekIds(summaries)| && SortedWeekIds(summaries)[..n] == WeeksBack(today, n, GetWeekId)
  {
    CurrentRunIsChain(SortedWeekIds(summaries), GetWeekId(today), PreviousWeekId, n);
    FourDigitWeeksAreSteps(today, n);
    if n > 0 {
      ChainOfSteps(WeeksBack(today, n, GetWeekId), PreviousWeekId, NextWeekId);
    }
  }

  /** The longest streak is at least `m` exactly when `m` consecutive scoring
      week ids, in the sorted order, are each the week after the next. */
  lemma LongestStreakMeaning(summaries: seq<WeeklySummary>, today: Day, m: nat)
    requires summaries != [] && m >= 1
    ensures Streak(summaries, today).1 >= m <==>
      exists i :: 0 <= i < |SortedWeekIds(summaries)| && LinkedRun(SortedWeekIds(summaries), i, m, NextWeekId)
  {
    LongestRunIsLinked(SortedWeekIds(summaries), NextWeekId, m);
  }

  /** Weeks counted back from `today` that open the sorted ids form a linked run. */
  lemma WeeksBackAreLinked(ws: seq<string>, today: Day, n: nat)
    requires 0 < n <= |ws| && ws[..n] == WeeksBack(today, n, GetWeekId) && FourDigitWeeksBack(today, n)
    ensures LinkedRun(ws, n - 1, n, NextWeekId)
  {
    FourDigitWeeksAreSteps(today, n);
    forall j: int | -1 < j < n - 1 ensures ws[j] == NextWeekId(ws[j + 1]) {
      assert ws[j] == ws[..n][j] && ws[j + 1] == ws[..n][j + 1];
    }
  }

  /** The current run is itself a run, so it never beats the longest one. */
  lemma CurrentStreakAtMostLongest(summaries: seq<WeeklySummary>, today: Day)
    requires FourDigitWeeksBack(today, Streak(summaries, today).0)
    ensures Streak(summaries, today).0 <= Streak(summaries, today).1
  {
    if summaries != [] {
      var ws := SortedWeekIds(summaries);
      var n := CurrentRun(ws, GetWeekId(today), PreviousWeekId);
      if n > 0 {
        CurrentStreakMeaning(summaries, today, n);
        WeeksBackAreLinked(ws, today, n);
        LongestRunIsLinked(ws, NextWeekId, n);
      }
    }
  }

  // ---------------------------------------------------------------------
  // Properties of the streak counts
  // ---------------------------------------------------------------------

  /** The streaks depend on the summaries as a collection, not on their order. */
  lemma StreakOfPermutation(a: seq<WeeklySummary>, b: seq<WeeklySummary>, today: Day)
    requires multiset(a) == multiset(b)
    ensures Streak(a, today) == Streak(b, today)
  {
    assert |a| == |multiset(a)| == |multiset(b)| == |b|;
    PositiveWeekIdsOfPermutation(a, b);
    SortDescOfPermutation(PositiveWeekIds(a), PositiveWeekIds(b));
  }

  /** The streaks only see the positive week ids: the empty-input shortcut
      gives what the loops give on no ids. */
  lemma StreakOfSameIds(x: seq<WeeklySummary>, y: seq<WeeklySummary>, today: Day)
    requires PositiveWeekIds(x) == PositiveWeekIds(y)
    ensures Streak(x, today) == Streak(y, today)
  {
    if x == [] || y == [] {
      assert PositiveWeekIds(x) == [];
      assert SortedWeekIds(x) == [] && SortedWeekIds(y) == [];
    }
  }

  /** A week that scored nothing does not change either streak. */
  lemma StreakIgnoresUnscoredWeek(a: seq<WeeklySummary>, s: WeeklySummary, b: seq<WeeklySummary>, today: Day)
    requires s.score == 0
    ensures Streak(a + [s] + b, today) == Streak(a + b, today)
  {
    PositiveWeekIdsConcat(a + [s], b);
    PositiveWeekIdsConcat(a, [s]);
    PositiveWeekIdsConcat(a, b);
    assert PositiveWeekIds([s]) == [];
    StreakOfSameIds(a + [s] + b, a + b, today);
  }

  /** Both streaks count scoring weeks: neither exceeds their number, the
      longest one is positive exactly when some week scored, and a current
      streak needs a scoring summary for this week. */
  lemma StreakBounds(summaries: seq<WeeklySummary>, today: Day)
    ensures Streak(summaries, today).0 <= |PositiveWeekIds(summaries)| <= |summaries|
    ensures Streak(summaries, today).1 <= |PositiveWeekIds(summaries)|
    ensures Streak(summaries, today).1 >= 1 <==> PositiveWeekIds(summaries) != []
    ensures Streak(summaries, today).0 > 0 ==>
      exists i :: 0 <= i < |summaries| && summaries[i].score > 0 && summaries[i].weekId == GetWeekId(today)
  {
    var ws := SortedWeekIds(summaries);
    if Streak(summaries, today).0 > 0 {
      assert ws[0] in multiset(ws);
      assert GetWeekId(today) in PositiveWeekIds(summaries);
      PositiveWeekIdsMembers(summaries);
    }
  }
}
