# The 30 Club — a Dafny model of the scoring, stats and limit logic

The 30 Club is a habit tracker: users log the plants they eat, and each ISO
week's score is the number of distinct plants logged that week (target 30).
This project models the deterministic core of that app and proves what it
promises:

- **ISO weeks and weekly scoring** (`Calendar`, `Scoring`, `IsoWeekDates`).
  Dates are day numbers (`Day`, day 0 = Monday 0001-01-01 on the proleptic
  Gregorian calendar). ISO 8601 week numbering (weeks run Monday to Sunday,
  week 1 holds 4 January) is defined directly with integer arithmetic.
  `GetWeekId` prints `YYYY-Www`, `GetWeekDates` parses a label back into its
  Monday–Sunday range, and the two are proved inverse. The two-digit-year quirk
  of the JavaScript `Date` constructor is modelled too. `IsoWeekDates` models
  the `parseISO(id + '-1')` / `subWeeks` steps that the streak walk uses.
- **Streaks, achievements and lifetime stats** (`Stats`, `StatsAchievements`,
  `StatsAllTime`). Each of the source's loops is a method proved against a
  specification function. Then the properties the app relies on are proved
  about those functions:
  - The streak is invariant under permutation and ignores unscored weeks.
  - The current streak is the run of weeks back from today.
  - The achievements rule is idempotent and monotone.
  - `bestWeekId` is the first week to reach the best score.

  The streak achievements that `checkAchievements` awards (`streak_3`,
  `streak_5`, `streak_10`) have no entry in the achievement catalog, whose
  streak entries are `week_streak_2/4/8/12`. `StreakIdsOutsideCatalog` states
  this.
- **Reference data and plant catalog** (`Types`, `Plants`). The enums, the
  achievement record (every key is its id upper-cased, so look-up by
  upper-cased id finds the entry) and the 103-plant catalog with its
  find/search/filter queries.
- **Challenges** (`Utils`, `WeeklyJob`). `getChallengeWinner` and invite codes
  are modelled, with the random positions as an input. `WeeklyJob` models the
  pure parts of the weekly scheduled job:
  - the due-challenge filter, the winner expression and `completedCount`;
  - the win-count achievements of `updateUserStatsForWin`;
  - the job's own `getWeekId`, which starts weeks on Sunday and uses the
    calendar year. Its `new Date(year, 0, 1)` reads years 0 to 99 as 1900 to
    1999, so before year 100 every week number is negative.

  That label disagrees with the ISO labels challenges are created with, for
  example on 2026-01-04, 2025-12-29 and Monday 2027-01-04. On that Monday a
  challenge labelled with the ISO week that has just begun is already treated
  as due (`CurrentIsoWeekDueOn2027January4`).
- **Rate limiter** (`RateLimiting`). A class whose `storage` map stands for
  `localStorage`. `checkLimit` either opens a window, refuses, or counts one
  attempt. Stored counts stay within each action's `maxAttempts`, so at most
  `maxAttempts` attempts are allowed per window. `reset` and `clearUser`
  delete exactly their keys.
- **Small validators** (`Features`, `UserSearch`). Pro gating, the invite-link
  slug and the two-character search guard.

The current time (`Date.now()`, `new Date()`), the random source and the
Firestore query of `searchUsers` are parameters. The support modules are
`Wrappers` (Option), `Collections`, `Text` (ASCII case mapping, trimming,
decimal printing and `parseInt`) and `Arithmetic`.

## Model

| member | source | states |
|---|---|---|
| Calendar.CalendarYear | core/src/scoring/index.ts:25 | the calendar year of a day is the unique y with 1 January of y on or before it and 1 January of y+1 after it |
| Calendar.CalendarYearUnique | core/src/scoring/index.ts:25 | any year whose bounds enclose a day is that day's calendar year |
| Calendar.Week1Monday | core/src/scoring/index.ts:25-26 | the Monday of ISO week 1 is a Monday and lies within the six days before 4 January (startOfISOWeek of jan4) |
| Calendar.IsoYear | core/src/scoring/index.ts:8 | the ISO week-numbering year is the unique y whose week-1 Monday is on or before the day and whose successor's week-1 Monday is after it |
| Calendar.IsoYearUnique | core/src/scoring/index.ts:8 | any year whose week-1 Mondays enclose the day is its ISO year |
| Calendar.IsoWeek | core/src/scoring/index.ts:9 | the ISO week number lies in 1..52 or 1..53, as the year has 52 or 53 weeks |
| Calendar.StartOfIsoWeek | core/src/scoring/index.ts:26 | startOfISOWeek is a Monday at most six days before the date |
| Calendar.EndOfIsoWeek | core/src/scoring/index.ts:33 | endOfISOWeek is a Sunday at most six days after the date |
| Calendar.DaysOfIsoWeek | core/src/scoring/index.ts:29-33 | all seven days from the Monday of week w of year y carry ISO year y and week w |
| Calendar.IsoWeekContains | core/src/scoring/index.ts:7-11 | the Monday of a day's (ISO year, week) is the start of its week, and the day lies within that Monday and the Sunday after |
| Scoring.WeekLabel | core/src/scoring/index.ts:10 | `${year}-W${week padded to 2}`; specified by SplitWeekLabel, ParsePad2 and WeekLabelInjective: the label reads back its year and week, and distinct pairs print distinct labels |
| Scoring.GetWeekId | core/src/scoring/index.ts:7-11 | the label of the ISO year and ISO week of a date; specified by LabelOfWeekEnds, SameLabelIffSameWeek and GetWeekIdRoundTrip: two dates share a label exactly when they share an ISO week, and the label maps back to that week |
| Scoring.FindSeparator | core/src/scoring/index.ts:20 | finds the first occurrence of `-W` at or after a position, or the end of the text |
| Scoring.SplitWeekId | core/src/scoring/index.ts:20 | `split('-W')` gives the text before the first separator and, when there is one, the text from it up to the next separator or the end; neither field contains a separator |
| Scoring.SplitAtFirstSeparator | core/src/scoring/index.ts:20 | digits, `-W`, then text without a `W` split into the digits and that text |
| Scoring.DateConstructorYear | core/src/scoring/index.ts:25 | `new Date(year, 0, 4)` keeps years from 100 on and maps 0..99 to 1900..1999 |
| Scoring.GetWeekDates | core/src/scoring/index.ts:16-35 | a parsed range runs from a Monday to the Sunday six days later |
| Scoring.SplitWeekLabel | core/src/scoring/index.ts:10-20 | splitting a printed label returns its year digits and its padded week |
| Scoring.ParsePad2 | core/src/scoring/index.ts:10-22 | parseInt reads back a two-digit padded week number |
| Scoring.WeekLabelInjective | core/src/scoring/index.ts:10 | distinct (year, week) pairs with weeks below 100 print distinct labels |
| Scoring.WeekDatesOfLabel | core/src/scoring/index.ts:20-32 | the range of a printed label starts at week 1's Monday (from 4 January) plus (week-1)*7 days |
| Scoring.GetWeekDatesRoundTrip | core/src/scoring/index.ts:7-35 | for every valid label from year 100 on, getWeekId of its start and of its end is the label again |
| Scoring.LabelOfWeekEnds | core/src/scoring/index.ts:7-11 | the Monday and the Sunday of week w of year y both print as that label |
| Scoring.GetWeekIdRoundTrip | core/src/scoring/index.ts:7-35 | for every date whose ISO year is 100 or later, getWeekDates of its label is its own ISO week, so start <= date <= end |
| Scoring.SameLabelIffSameWeek | core/src/scoring/index.ts:7-11 | two dates get the same label exactly when they share an ISO week |
| Scoring.TwoDigitYearLabel | core/src/scoring/index.ts:25 | a label with a year in 1..99 resolves to a week of year 1900+y, not of year y |
| Scoring.PlantIds | core/src/scoring/index.ts:41 | `logs.map(log => log.plantId)`, element by element |
| Scoring.CalculateWeeklyScore | core/src/scoring/index.ts:40-43 | the score is the number of distinct plant ids and at most the number of logs |
| Scoring.ScoreIgnoresRepeatedPlant | core/src/scoring/index.ts:40-43 | inserting a log for an already-logged plant anywhere leaves the score unchanged |
| Scoring.ScoreCountsNewPlant | core/src/scoring/index.ts:40-43 | appending a log for a new plant raises the score by one |
| Scoring.SummaryIdInjective | core/src/scoring/index.ts:57 | for user ids without `_`, the summary id determines both user and week |
| Scoring.GenerateWeeklySummary | core/src/scoring/index.ts:48-68 | id is `user_week`; uniquePlantIds is duplicate-free with the logs' plant ids as its set; score is its length and the weekly score; totalLogs is the log count; dates are getWeekDates(weekId) |
| Scoring.IsPlantLoggedThisWeek | core/src/scoring/index.ts:73-79 | true exactly when some log has both the plant id and the week id |
| Scoring.LoggedThisWeekIffScoreUnchanged | core/src/scoring/index.ts:40-79 | for one week's logs, a new log raises the score by one exactly when the plant was not yet logged that week |
| Scoring.GetProgressPercentage | core/src/scoring/index.ts:84-86 | NaN (None) only for 0/0; otherwise at most 100, exactly 100 when score >= target, else score/target*100 rounded half up |
| Scoring.RoundedPercentage | core/src/scoring/index.ts:85 | the integer quotient used is the half-up rounding of 100*score/target, and reaches 100 once score >= target |
| Scoring.ProgressMonotone | core/src/scoring/index.ts:84-86 | a higher score never shows a lower percentage |
| IsoWeekDates.ParseIsoWeekDate | core/src/stats/index.ts:36-49 | a parsed `YYYY-Www-D` is a day whose weekday is D (1 = Monday) |
| IsoWeekDates.ParseMondayOfLabel | core/src/stats/index.ts:36-49 | for four-digit years, parseISO(label + '-1') is the Monday of that ISO week |
| IsoWeekDates.ParseWeekIdOfDay | core/src/stats/index.ts:36-49 | parseISO(getWeekId(d) + '-1') is the Monday of d's week |
| IsoWeekDates.PreviousWeekId | core/src/stats/index.ts:36-37 | the label of the week seven days before the Monday of a label; specified by PreviousWeekIdOfDay |
| IsoWeekDates.NextWeekId | core/src/stats/index.ts:49-50 | the label of the week seven days after the Monday of a label; specified by NextWeekIdOfDay |
| IsoWeekDates.PreviousWeekIdOfDay | core/src/stats/index.ts:36-37 | for four-digit years, the label of the week before d's label is the label of d minus seven days |
| IsoWeekDates.NextWeekIdOfDay | core/src/stats/index.ts:49-50 | for four-digit years, the label of the week after d's label is the label of d plus seven days |
| Stats.PositiveWeekIdsMembers | core/src/stats/index.ts:18-19 | the filtered ids are exactly the week ids of summaries with a positive score |
| Stats.InsertSorted | core/src/stats/index.ts:20 | inserting into a descending list keeps it descending |
| Stats.SortDesc | core/src/stats/index.ts:20 | the sort is a permutation of its input |
| Stats.SortDescSorted | core/src/stats/index.ts:20 | the sort's output is in descending code-unit order |
| Stats.SortDescOfPermutation | core/src/stats/index.ts:18-20 | permuted inputs sort to the same list |
| Stats.CountCurrentStreak | core/src/stats/index.ts:26-41 | the first loop counts the leading entries that match the expected week, stepping it back each time |
| Stats.CountLongestStreak | core/src/stats/index.ts:43-60 | the second loop returns the longest run of entries each one week before the previous |
| Stats.CalculateStreak | core/src/stats/index.ts:9-63 | the method computes (current, longest) as the streak function does, (0, 0) on no summaries |
| Stats.Streak | core/src/stats/index.ts:9-63 | (current, longest) streak of a user; specified by CurrentStreakMeaning, LongestStreakMeaning, CurrentStreakAtMostLongest, StreakBounds and the order and unscored-week lemmas, and computed by the CalculateStreak method |
| Stats.CurrentStreakMeaning | core/src/stats/index.ts:27-41 | the current streak is at least n exactly when the n most recent scored weeks are today's week and the n-1 weeks before it |
| Stats.LongestStreakMeaning | core/src/stats/index.ts:43-60 | the longest streak is at least m exactly when the sorted weeks hold m entries in a row, each the NextWeekId of the one after it (consecutive ISO weeks when the labels are four-digit ISO labels) |
| Stats.CurrentStreakAtMostLongest | core/src/stats/index.ts:22-61 | the current streak never exceeds the longest |
| Stats.StreakOfPermutation | core/src/stats/index.ts:18-20 | the result does not depend on the order of the summaries |
| Stats.StreakOfSameIds | core/src/stats/index.ts:18-20 | the result depends only on the week ids of positively scored summaries |
| Stats.StreakIgnoresUnscoredWeek | core/src/stats/index.ts:19 | adding or removing a zero-score summary changes nothing |
| Stats.StreakBounds | core/src/stats/index.ts:13-61 | current <= scored weeks; longest <= scored weeks; longest >= 1 iff a week scored; a current streak means today's week scored |
| StatsAchievements.EarnedByChecks | core/src/stats/index.ts:73-114 | the rule table performs the nine guarded pushes of the source, in its order and with its thresholds |
| StatsAchievements.CheckAchievements | core/src/stats/index.ts:68-115 | the method pushes exactly the ids of the rule table's specification |
| StatsAchievements.EarnedMembers | core/src/stats/index.ts:76-112 | an id is returned exactly when its rule's measure reaches the threshold and it is not yet unlocked |
| StatsAchievements.EarnedNoDuplicates | core/src/stats/index.ts:73-114 | the result has no duplicate id |
| StatsAchievements.NewAchievements | core/src/stats/index.ts:68-115 | the ids checkAchievements returns; specified by NewAchievementsMeaning and NewAchievementsIdempotent, and computed by the CheckAchievements method |
| StatsAchievements.NewAchievementsMeaning | core/src/stats/index.ts:76-112 | with the streak taken as max(current, longest), an id is new exactly when it is not existing and its threshold is met; no duplicates |
| StatsAchievements.EarnedIdempotent | core/src/stats/index.ts:73-114 | calling again with existing plus the result returns nothing |
| StatsAchievements.NewAchievementsIdempotent | core/src/stats/index.ts:68-115 | the full check, repeated with its own result added, unlocks nothing more |
| StatsAchievements.EarnedMonotone | core/src/stats/index.ts:76-112 | larger stats and streak never earn fewer ids |
| StatsAchievements.ThresholdLadder | core/src/stats/index.ts:82-107 | earning a higher threshold of a measure means every lower one is earned now or already unlocked |
| StatsAchievements.AchievementIdsListed | core/src/types/index.ts:162-297 | the catalog ids, in order |
| StatsAchievements.StreakIdsOutsideCatalog | core/src/stats/index.ts:99-107 | the ids of the streak rules are exactly the rule ids missing from the catalog, and exactly the ones for which `ACHIEVEMENTS[id.toUpperCase()]` finds nothing |
| StatsAllTime.CalculateAllTimeStats | core/src/stats/index.ts:120-153 | the forEach loop computes the union size, the log sum, the summary count and the first best week |
| StatsAllTime.AllTimeStatsOf | core/src/stats/index.ts:120-153 | the all-time stats record; specified by PlantIdsMembers, PlantIdsBound, BestIsMaximum, BestIsFirstAttained and SumLogsConcat, and computed by the CalculateAllTimeStats method |
| StatsAllTime.PlantIdsMembers | core/src/stats/index.ts:124-130 | the set of all plant ids is exactly the ids found in some summary |
| StatsAllTime.PlantIdsBound | core/src/stats/index.ts:145 | totalUniquePlants, a union, is at most the sum of per-week counts |
| StatsAllTime.BestIsMaximum | core/src/stats/index.ts:133-136 | bestWeekScore is at least every summary's score |
| StatsAllTime.BestIsFirstAttained | core/src/stats/index.ts:126-136 | bestWeekId is null iff bestWeekScore is 0; otherwise it is the first summary reaching the best score |
| StatsAllTime.SumLogsConcat | core/src/stats/index.ts:131 | totalLogs adds up over concatenated summary lists |
| Types.PlantCategoryValuesDistinct | core/src/types/index.ts:22-33 | ten categories, all listed, with pairwise distinct string values |
| Types.ChallengeStatusValuesDistinct | core/src/types/index.ts:116-121 | four statuses, all listed, with pairwise distinct string values |
| Types.Achievements | core/src/types/index.ts:162-297 | the ACHIEVEMENTS record as (key, entry) pairs; specified by AchievementKeysAreUppercasedIds, AchievementKeysDistinct, AchievementIdsDistinct and AchievementIdsListed |
| Types.LookupAchievement | core/src/types/index.ts:162-297 | `ACHIEVEMENTS[key]` is found exactly when some entry has that key, and then it is that entry |
| Types.AchievementKeysAreUppercasedIds | core/src/types/index.ts:162-297 | every key is its entry's id in upper case |
| Types.AchievementKeysDistinct | core/src/types/index.ts:162-297 | the record's keys are pairwise distinct |
| Types.AchievementIdsDistinct | core/src/types/index.ts:162-297 | no two entries share an id |
| Types.LookupByUppercasedId | core/src/types/index.ts:162-297 | looking an entry up by its upper-cased id finds that entry |
| Plants.CANONICAL_PLANTS | core/src/plants/index.ts:3-122 | the canonical plant list; specified by CatalogPartition: its category lists add up to it |
| Plants.GetPlantById | core/src/plants/index.ts:124-126 | `find` by id over the catalog; specified by GetPlantByIdMeaning and FindByIdFirst |
| Plants.FindById | core/src/plants/index.ts:125 | a found plant has the id and comes from the list |
| Plants.FindByIdFirst | core/src/plants/index.ts:125 | `find` returns nothing iff no plant has the id, else the first plant with it |
| Plants.FindByOwnId | core/src/plants/index.ts:124-126 | in a list with distinct ids, finding a plant's own id returns that plant |
| Plants.GetPlantByIdMeaning | core/src/plants/index.ts:124-126 | none for ids outside the catalog; otherwise a catalog plant with that id |
| Plants.SearchPlants | core/src/plants/index.ts:128-135 | searchPlants; specified by SearchBlankQuery, SearchMeaning, SearchIgnoresCase and SearchNarrows |
| Plants.NormalizeEmptyIff | core/src/plants/index.ts:129-130 | the normalised query is empty exactly for blank queries |
| Plants.SearchBlankQuery | core/src/plants/index.ts:130 | a blank query returns the whole catalog |
| Plants.SearchMeaning | core/src/plants/index.ts:132-134 | otherwise the result is the catalog filtered, in order, to names whose lower case contains the normalised query |
| Plants.SearchIgnoresCase | core/src/plants/index.ts:129 | queries differing only in letter case give the same result |
| Plants.SearchNarrows | core/src/plants/index.ts:128-135 | a query containing another non-blank query returns a subset of its results |
| Plants.GetPlantsByCategory | core/src/plants/index.ts:137-139 | the catalog filtered by category; specified by FiltersMeaning and CategoriesPartition |
| Plants.GetCommonPlants | core/src/plants/index.ts:141-143 | the catalog filtered to common plants; specified by FiltersMeaning |
| Plants.FiltersMeaning | core/src/plants/index.ts:137-143 | by-category and common filters return exactly the catalog plants with that category / marked common |
| Plants.EachCategoryOnce | core/src/types/index.ts:22-33 | every category occurs exactly once in the category list |
| Plants.CategoriesPartition | core/src/plants/index.ts:137-139 | the per-category filters put each plant in exactly its own category, and their sizes add up to the list |
| Plants.CatalogPartition | core/src/plants/index.ts:3-139 | the category lists of the catalog add up to the whole catalog |
| Utils.InviteAlphabetShape | core/src/utils/index.ts:7 | the alphabet has 32 distinct characters and lacks 0, O, 1 and I |
| Utils.GenerateInviteCode | core/src/utils/index.ts:6-13 | the code has six characters, each the alphabet character at the drawn position |
| Utils.DrawsDetermineCode | core/src/utils/index.ts:9-11 | different draws give different codes |
| Utils.EveryCodeIsDrawn | core/src/utils/index.ts:6-13 | every six-character string over the alphabet is produced by some draws |
| Utils.GetChallengeWinner | core/src/utils/index.ts:18-26 | null iff not completed; challenger iff completed and ahead; opponent iff completed and behind; tie iff completed and level |
| Utils.WinnerOfSwapped | core/src/utils/index.ts:23-25 | swapping the sides swaps challenger and opponent wins and keeps a tie |
| Utils.WinnerMonotone | core/src/utils/index.ts:23-24 | raising the challenger's score keeps a challenger win; an opponent win after it was one before |
| WeeklyJob.CeilSeven | functions/src/index.ts:171 | `Math.ceil(n / 7)` for every whole n, negative ones included: the least q with n <= 7q |
| WeeklyJob.DaysIntoYear | functions/src/index.ts:166-170 | whole days since `new Date(year, 0, 1)`: within the date's own year from year 100 on; more than 1800 years negative for years 1..99, which `new Date` reads as 1901..1999 |
| WeeklyJob.JobWeekNumber | functions/src/index.ts:171 | `Math.ceil((days + startOfYear.getDay() + 1) / 7)`; specified by JobWeekNumberRange, NewYearIsWeekOne, JobWeekStep and TwoDigitYearJobWeek |
| WeeklyJob.JobWeekNumberRange | functions/src/index.ts:166-171 | the job's week number lies in 1..54 from year 100 on and is negative for years 1..99 |
| WeeklyJob.NewYearIsWeekOne | functions/src/index.ts:165-173 | 1 January belongs to its own calendar year and, from year 100 on, is week 01 |
| WeeklyJob.TwoDigitYearJobWeek | functions/src/index.ts:165-173 | 1 March of the year 50 is counted from Sunday 1 January 1950 and labelled `50-W-99128` |
| WeeklyJob.JobWeekStep | functions/src/index.ts:171 | within a year the week number rises by one from Saturday to Sunday and stays the same between other neighbouring days |
| WeeklyJob.JobWeekId | functions/src/index.ts:165-173 | the job's own week label, a negative week keeping its minus sign; specified by JobWeekIdInjective, TwoDigitYearJobWeek and the three Disagrees lemmas against the ISO label |
| WeeklyJob.JobWeekIdInjective | functions/src/index.ts:172 | two dates get the same job label exactly when they share calendar year and week number, negative weeks included |
| WeeklyJob.PadWeekNumberInjective | functions/src/index.ts:172 | `padStart(2, "0")` of week numbers below 100, negative ones included, prints distinct numbers distinctly |
| WeeklyJob.DisagreesOn2026January4 | functions/src/index.ts:165-173 | on Sunday 2026-01-04 the job says 2026-W02 where the ISO label is 2026-W01 |
| WeeklyJob.DisagreesOn2025December29 | functions/src/index.ts:165-173 | on 2025-12-29 the job says 2025-W53 where the ISO label is 2026-W01 |
| WeeklyJob.DisagreesOn2027January4 | functions/src/index.ts:165-173 | on Monday 2027-01-04 the job says 2027-W02 where the ISO label is 2027-W01 |
| WeeklyJob.CurrentIsoWeekDueOn2027January4 | functions/src/index.ts:40 | on that Monday a challenge labelled with the ISO week just begun already passes the completion filter |
| WeeklyJob.MondayJobWeek | functions/src/index.ts:165-173 | on every Monday from year 100 on whose ISO and calendar years agree, the job's week number is the ISO week, plus one exactly when 1 January was a Friday or Saturday |
| WeeklyJob.MondayWeeksFromYearStart | functions/src/index.ts:171 | the day arithmetic behind it: ceil((days + getDay + 1) / 7) against the weeks since the Monday on or before 4 January |
| WeeklyJob.CurrentIsoWeekDueOnMonday | functions/src/index.ts:40 | on a Monday whose ISO and calendar years agree, a challenge labelled with the ISO week just begun passes the completion filter exactly when 1 January was a Friday or Saturday or the year is below 100 |
| WeeklyJob.WinnerId | functions/src/index.ts:41-46 | the winner is null exactly on a tie |
| WeeklyJob.WinnerIdAgreesWithCore | functions/src/index.ts:41-46 | the job's winner names the side getChallengeWinner picks for the completed challenge |
| WeeklyJob.DueChallenges | functions/src/index.ts:40 | the due challenges are at most the active ones |
| WeeklyJob.DueMeaning | functions/src/index.ts:40 | a challenge is completed exactly when it is active and its week id differs from the current one |
| WeeklyJob.CompletionsOf | functions/src/index.ts:48-52 | one completion per due challenge, in order, carrying its winner |
| WeeklyJob.WinnersMeaning | functions/src/index.ts:54-56 | stats are updated for exactly the truthy winner ids, at most one per due challenge |
| WeeklyJob.JobAchievementsInCatalog | functions/src/index.ts:99-130 | the three win achievements the job pushes are the catalog's FIRST_CHALLENGE_WIN, WIN_5_CHALLENGES and WIN_10_CHALLENGES entries |
| WeeklyJob.MilestoneFor | functions/src/index.ts:99-130 | a win achievement exists exactly for 1, 5 and 10 wins |
| WeeklyJob.UpdateUserStatsForWin | functions/src/index.ts:78-158 | the method's pushes build exactly the stats update of the win rule |
| WeeklyJob.WinUpdateCounts | functions/src/index.ts:85-153 | each win raises challengeWins by one, adds the winner's document if missing and leaves every other user's untouched |
| WeeklyJob.WinUpdateAchievements | functions/src/index.ts:93-136 | existing achievements are kept; at most one is added, exactly when the new count is 1, 5 or 10 and its id is absent, and it is that milestone |
| WeeklyJob.WinUpdateFresh | functions/src/index.ts:140-153 | a user without stats gets one win and exactly first_challenge_win |
| WeeklyJob.WinsAccumulate | functions/src/index.ts:37-86 | after the job, each user's wins grew by the number of challenges they won |
| WeeklyJob.FreshUserMilestones | functions/src/index.ts:85-153 | a user with no stats who wins k > 0 times ends with k wins and the milestones for 1, 5 and 10 up to k, in order |
| WeeklyJob.CompleteWeeklyChallenges | functions/src/index.ts:37-62 | the loop completes the due challenges in order, counts them, and applies one stats update per truthy winner |
| WeeklyJob.CompleteChallenge | functions/src/index.ts:40-58 | one loop iteration: a due challenge is completed and counted, and its truthy winner credited; others change nothing |
| RateLimiting.DefaultLimits | web/src/utils/rateLimiter.ts:11-16 | the configured actions allow at least 10 attempts per window of at least an hour |
| RateLimiting.RateLimiter.constructor | web/src/utils/rateLimiter.ts:22-24 | the limiter starts over the given storage |
| RateLimiting.RateLimiter.CheckLimit | web/src/utils/rateLimiter.ts:49-78 | the new storage and the answer are those of the check on the old storage |
| RateLimiting.RateLimiter.GetRemaining | web/src/utils/rateLimiter.ts:83-96 | returns the remaining attempts and changes nothing |
| RateLimiting.RateLimiter.GetResetTime | web/src/utils/rateLimiter.ts:101-109 | returns the time to the window's end and changes nothing |
| RateLimiting.RateLimiter.Reset | web/src/utils/rateLimiter.ts:114-117 | removes exactly the (user, action) key |
| RateLimiting.RateLimiter.ClearUser | web/src/utils/rateLimiter.ts:122-131 | removes exactly the keys starting with `ratelimit_<user>_` |
| RateLimiting.CheckLimitOf | web/src/utils/rateLimiter.ts:49-78 | the storage and answer of checkLimit; specified by CheckLimitCases, CheckLimitKeepsCounts, InsideWindow and AtMostMaxAttemptsPerWindow |
| RateLimiting.RemainingOf | web/src/utils/rateLimiter.ts:83-96 | getRemaining; specified by RemainingPredictsCheck and ResetOpensWindow |
| RateLimiting.ResetTimeOf | web/src/utils/rateLimiter.ts:101-109 | getResetTime; specified by ResetOpensWindow |
| RateLimiting.ClearUserOf | web/src/utils/rateLimiter.ts:122-131 | clearUser on the storage; specified by ClearUserKeys and RemovalKeepsCounts |
| RateLimiting.CheckLimitCases | web/src/utils/rateLimiter.ts:49-78 | unconfigured: allowed, unchanged; no record or expired: allowed, {1, now+window} stored; full: refused, unchanged; else allowed and count+1; other keys untouched |
| RateLimiting.RemainingPredictsCheck | web/src/utils/rateLimiter.ts:49-96 | for a configured action, checkLimit allows exactly when getRemaining is positive |
| RateLimiting.ResetOpensWindow | web/src/utils/rateLimiter.ts:114-117 | after reset the full quota remains, the reset time is 0 and the next check is allowed |
| RateLimiting.KeyDeterminesAction | web/src/utils/rateLimiter.ts:26-28 | for configured actions the key determines both the user and the action |
| RateLimiting.CheckLimitKeepsCounts | web/src/utils/rateLimiter.ts:61-77 | every stored count of a configured action stays in 1..maxAttempts |
| RateLimiting.RemovalKeepsCounts | web/src/utils/rateLimiter.ts:114-131 | reset and clearUser keep that invariant |
| RateLimiting.InsideWindow | web/src/utils/rateLimiter.ts:70-77 | within a window, checks allow at most maxAttempts minus the stored count more attempts |
| RateLimiting.AtMostMaxAttemptsPerWindow | web/src/utils/rateLimiter.ts:61-77 | checks made within one window from its opening allow at most maxAttempts attempts |
| RateLimiting.ClearUserKeys | web/src/utils/rateLimiter.ts:122-131 | clearUser drops the user's keys and also those of users whose id extends `<user>_`, and keeps every other key |
| RateLimiting.FormatTimeRemaining | web/src/utils/rateLimiter.ts:137-145 | formatTimeRemaining; specified by TimeRemainingRoundsDown and FormatTimeRemainingReadsBack |
| RateLimiting.TimeRemainingRoundsDown | web/src/utils/rateLimiter.ts:138-139 | minutes are below 60, and hours and minutes are the time rounded down to a whole minute |
| RateLimiting.FormatTimeRemainingReadsBack | web/src/utils/rateLimiter.ts:137-145 | the text shows `h` exactly when hours > 0, ends in `m`, and reads back the hours (or minutes), then the minutes |
| Features.FeatureEnabled | web/src/config/features.ts:1-4 | only leagues are switched on for everyone |
| Features.HasProAccess | web/src/config/features.ts:21-22 | an undefined or empty user id has no access |
| Features.ProFeature | web/src/config/features.ts:7-10 | membership in PRO_FEATURES; specified by RequiresPro |
| Features.RequiresPro | web/src/config/features.ts:7-36 | every feature requires Pro, as PRO_FEATURES says |
| Features.WhitelistAlwaysHasAccess | web/src/config/features.ts:13-25 | a whitelisted user has access whether or not they purchased |
| Features.WhitelistNonEmpty | web/src/config/features.ts:13-16 | no whitelisted id is empty |
| Features.OthersNeedPurchase | web/src/config/features.ts:21-28 | any other non-empty id has access exactly when it purchased, and not by default |
| Features.AccessMeaning | web/src/config/features.ts:21-29 | access iff a non-empty id that is whitelisted or purchased; purchasing never removes access |
| UserSearch.Slice | web/src/services/userSearchService.ts:97 | `slice(0, n)` is the prefix of length min(n, length) |
| UserSearch.GenerateInviteLink | web/src/services/userSearchService.ts:98 | every link starts with `https://app.the30club.com/join/` |
| UserSearch.LinkEndsWithUsername | web/src/services/userSearchService.ts:96-99 | the rest of the link is the username |
| UserSearch.InviteUsername | web/src/services/userSearchService.ts:97 | the username of an invite link; specified by UsernameFromDisplayName and UsernameFallback |
| UserSearch.UsernameFromDisplayName | web/src/services/userSearchService.ts:97 | for a display name with a non-blank character: the name lower-cased without whitespace, non-empty, with no whitespace or upper-case letter |
| UserSearch.UsernameFallback | web/src/services/userSearchService.ts:97 | for a missing or blank name: the first min(8, length) characters of the user id, case kept |
| UserSearch.Utf16Length | web/src/services/userSearchService.ts:25 | `length` counts UTF-16 code units: between one and two per character, and one per character exactly when all lie in the Basic Multilingual Plane |
| UserSearch.Utf16LengthBelowTwo | web/src/services/userSearchService.ts:25 | a string is shorter than two code units exactly when it is empty or one Basic Multilingual Plane character |
| UserSearch.SearchUsers | web/src/services/userSearchService.ts:24-25 | queries shorter than two UTF-16 code units return [] without querying; longer ones return the query's results |
| UserSearch.SearchResultsNeedTwoCharacters | web/src/services/userSearchService.ts:25 | any non-empty result came from a query of at least two UTF-16 code units |
| UserSearch.SearchRunsQuery | web/src/services/userSearchService.ts:24-25 | the query runs for two or more characters and for a single character outside the Basic Multilingual Plane (an emoji); only an empty or single BMP-character query returns [] |

## Left out

- Firestore, localStorage and network I/O, batching, awaits, logging and the
  job's error handling. The job is modelled as a loop over the active
  challenges with a map of stats documents.
- Timestamps (`createdAt`, `updatedAt`, `unlockedAt`, `serverTimestamp`).
  Because `unlockedAt` differs on every push, `arrayUnion` is modelled as an
  append.
- Time zones, daylight saving and the time of day. Dates are whole days, and
  `endOfISOWeek`'s 23:59:59.999 is the Sunday itself.
- Days before 0001-01-01. The model stops at day 0, so subtracting a week from
  the first week gives the label `NaN-WNaN`. date-fns would instead give a
  valid date in year 0.
- Scoring.GetWeekDates: `parseInt` is modelled only on text that starts with
  a digit. Leading white space (`" 2026-W05"`), a sign (`"2026-W+5"`,
  `"2026-W-1"`) and a `0x` hexadecimal prefix (`"0x7E8-W05"`) are accepted by
  `parseInt` but give None in the model. Years past the range of `Date`
  (`"300000-W01"`, beyond year 275760) give Invalid Date in JavaScript, but
  the model still returns a range.
- Floating point: `averageWeeklyScore` is not modelled.
- GetProgressPercentage: modelled with integer round-half-up on naturals.
  Negative or fractional scores are outside the model. `Infinity` for a
  positive score over target 0 shows as 100, as `Math.min` gives.
- IsoWeekDates.ParseIsoWeekDate: only the `YYYY-Www-D` form with a four-digit
  year is parsed. Other years and the rest of `parseISO`'s grammar are out of
  scope. Because of this, the streak lemmas about consecutive weeks need
  four-digit ISO years.
- Stats.SortDesc: `localeCompare` is modelled as code-unit order. This agrees
  with it on the ASCII labels `YYYY-Www`.
- Text.ToLower and Text.ToUpper map ASCII letters only.
- UserSearch.Slice: a `char` is a Unicode scalar value, so `slice(0, 8)` of
  the user id counts characters where JavaScript counts UTF-16 code units.
  The two agree on ids without characters outside the Basic Multilingual
  Plane. Only the search guard is modelled on UTF-16 length (UserSearch.Utf16Length).
- Plants.FindByOwnId: catalog-wide distinctness of plant ids is not proved,
  because the solver cost of the 103-entry literal is too high. It is proved
  for any list with distinct ids.
- RateLimiting: storage holds records rather than JSON text, so unparsable
  entries and `JSON.parse` failures are not modelled. Keys of
  `DEFAULT_LIMITS` inherited from `Object.prototype` are not modelled either.
- RateLimiting.RateLimiter.GetRemaining: the `Infinity` of an unconfigured
  action is None.
- WeeklyJob.UpdateUserStatsForWin: `challengeWins` is a natural number, so a
  missing or falsy count is read as 0.
- `getTopUsers` and the Firestore query of `searchUsers`; the query is a
  function parameter.
- `Math.random`: the six positions it draws are an input.
