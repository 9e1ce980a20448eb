/** The shared data model: the enums, the records the scoring and stats
    functions exchange, and the achievement catalog. Fields that only carry
    timestamps of creation or update are not part of this model. */
module Types {
  import opened Wrappers
  import opened Calendar
  import opened Text
  import opened Collections

  // ---------------------------------------------------------------------
  // Enums
  // ---------------------------------------------------------------------

  datatype PlantCategory =
    | Vegetable | Fruit | Grain | Legume | NutSeed
    | HerbSpice | Mushroom | Seaweed | PlantProduct | Other
  {
    /** The string each enum member stands for. */
    function Value(): string {
      match this
      case Vegetable => "vegetable"
      case Fruit => "fruit"
      case Grain => "grain"
      case Legume => "legume"
      case NutSeed => "nut_seed"
      case HerbSpice => "herb_spice"
      case Mushroom => "mushroom"
      case Seaweed => "seaweed"
      case PlantProduct => "plant_product"
      case Other => "other"
    }
  }

  const ALL_PLANT_CATEGORIES: seq<PlantCategory> :=
    [Vegetable, Fruit, Grain, Legume, NutSeed, HerbSpice, Mushroom, Seaweed, PlantProduct, Other]

  /** The enum lists every category once, and no two categories share a string value. */
  lemma PlantCategoryValuesDistinct()
    ensures |ALL_PLANT_CATEGORIES| == 10
    ensures forall c: PlantCategory :: c in ALL_PLANT_CATEGORIES
    ensures forall i, j :: 0 <= i < j < 10 ==>
              ALL_PLANT_CATEGORIES[i].Value() != ALL_PLANT_CATEGORIES[j].Value()
  {
    forall c: PlantCategory ensures c in ALL_PLANT_CATEGORIES {
      match c
      case Vegetable => assert ALL_PLANT_CATEGORIES[0] == c;
      case Fruit => assert ALL_PLANT_CATEGORIES[1] == c;
      case Grain => assert ALL_PLANT_CATEGORIES[2] == c;
      case Legume => assert ALL_PLANT_CATEGORIES[3] == c;
      case NutSeed => assert ALL_PLANT_CATEGORIES[4] == c;
      case HerbSpice => assert ALL_PLANT_CATEGORIES[5] == c;
      case Mushroom => assert ALL_PLANT_CATEGORIES[6] == c;
      case Seaweed => assert ALL_PLANT_CATEGORIES[7] == c;
      case PlantProduct => assert ALL_PLANT_CATEGORIES[8] == c;
      case Other => assert ALL_PLANT_CATEGORIES[9] == c;
    }
  }

  datatype ChallengeStatus = Pending | Active | Declined | Completed
  {
    function Value(): string {
      match this
      case Pending => "pending"
      case Active => "active"
      case Declined => "declined"
      case Completed => "completed"
    }
  }

  const ALL_CHALLENGE_STATUSES: seq<ChallengeStatus> := [Pending, Active, Declined, Completed]

  /** The four statuses have four distinct string values. */
  lemma ChallengeStatusValuesDistinct()
    ensures forall s: ChallengeStatus :: s in ALL_CHALLENGE_STATUSES
    ensures forall i, j :: 0 <= i < j < |ALL_CHALLENGE_STATUSES| ==>
              ALL_CHALLENGE_STATUSES[i].Value() != ALL_CHALLENGE_STATUSES[j].Value()
  {
    forall s: ChallengeStatus ensures s in ALL_CHALLENGE_STATUSES {
      match s
      case Pending => assert ALL_CHALLENGE_STATUSES[0] == s;
      case Active => assert ALL_CHALLENGE_STATUSES[1] == s;
      case Declined => assert ALL_CHALLENGE_STATUSES[2] == s;
      case Completed => assert ALL_CHALLENGE_STATUSES[3] == s;
    }
  }

  // ---------------------------------------------------------------------
  // Records
  // ---------------------------------------------------------------------

  datatype Plant = Plant(id: string, name: string, category: PlantCategory, isCommon: bool)

  datatype PlantLog = PlantLog(
    id: string,
    userId: string,
    plantId: string,
    plantName: string,
    loggedAt: Day,
    weekId: string)

  /** A Monday-to-Sunday range of days. */
  datatype WeekRange = WeekRange(startDate: Day, endDate: Day)

  /** `startDate`/`endDate` are None where the source holds an Invalid Date. */
  datatype WeeklySummary = WeeklySummary(
    id: string,
    userId: string,
    weekId: string,
    uniquePlantIds: seq<string>,
    score: nat,
    totalLogs: nat,
    dates: Option<WeekRange>)

  /** All-time statistics; `bestWeekId` is None where the source holds null. */
  datatype AllTimeStats = AllTimeStats(
    userId: string,
    totalUniquePlants: nat,
    totalLogs: nat,
    weeksActive: nat,
    bestWeekScore: nat,
    bestWeekId: Option<string>)

  datatype Challenge = Challenge(
    id: string,
    challengerId: string,
    opponentId: string,
    weekId: string,
    status: ChallengeStatus,
    challengerScore: nat,
    opponentScore: nat)

  // ---------------------------------------------------------------------
  // Achievement catalog
  // ---------------------------------------------------------------------

  datatype AchievementCategory = Milestone | Weekly | Streak | Variety | Social | Exploration

  datatype Achievement = Achievement(
    id: string,
    name: string,
    description: string,
    icon: string,
    category: AchievementCategory)

  /** `ACHIEVEMENTS`, as its (key, entry) pairs in declaration order. */
  function Achievements(): seq<(string, Achievement)> {
    [ ("FIRST_PLANT", Achievement("first_plant", "First Steps", "Log your first plant", "\U{1F331}", Milestone)),
      ("REACHED_10", Achievement("reached_10", "Gaining Momentum", "Reach 10 unique plants in a week", "\U{1F33F}", Weekly)),
      ("REACHED_20", Achievement("reached_20", "Plant Explorer", "Reach 20 unique plants in a week", "\U{1F343}", Weekly)),
      ("REACHED_30", Achievement("reached_30", "30 Plants Champion!", "Reach the goal of 30 unique plants in a week", "\U{1F3C6}", Weekly)),
      ("REACHED_40", Achievement("reached_40", "Plant Master", "Exceed 40 unique plants in a week", "\U{1F451}", Weekly)),
      ("WEEK_STREAK_2", Achievement("week_streak_2", "Getting Started", "Maintain a 2-week streak", "\U{1F525}", Streak)),
      ("WEEK_STREAK_4", Achievement("week_streak_4", "Committed", "Maintain a 4-week streak", "\U{1F4AA}", Streak)),
      ("WEEK_STREAK_8", Achievement("week_streak_8", "Dedicated", "Maintain an 8-week streak", "\U{1F525}", Streak)),
      ("WEEK_STREAK_12", Achievement("week_streak_12", "Unstoppable", "Maintain a 12-week streak", "\U{26A1}", Streak)),
      ("TRY_5_CATEGORIES", Achievement("try_5_categories", "Category Explorer", "Try plants from 5 different categories", "\U{1F5FA}\U{FE0F}", Exploration)),
      ("TRY_10_CATEGORIES", Achievement("try_10_categories", "Diversity Master", "Try plants from all 10 categories", "\U{1F308}", Exploration)),
      ("FIRST_CHALLENGE_WIN", Achievement("first_challenge_win", "First Victory", "Win your first challenge", "\U{1F3C6}", Social)),
      ("WIN_5_CHALLENGES", Achievement("win_5_challenges", "Challenge Champion", "Win 5 challenges", "\U{1F947}", Social)),
      ("WIN_10_CHALLENGES", Achievement("win_10_challenges", "Undefeated", "Win 10 challenges", "\U{1F451}", Social)),
      ("TOTAL_100", Achievement("total_100", "Century Club", "Log 100 unique plants all-time", "\U{1F4AF}", Milestone)),
      ("FIRST_REFERRAL", Achievement("first_referral", "Spread the Word", "Refer your first friend", "\U{1F91D}", Social)),
      ("REFER_5_FRIENDS", Achievement("refer_5_friends", "Community Builder", "Refer 5 friends", "\U{1F465}", Social)),
      ("REFER_10_FRIENDS", Achievement("refer_10_friends", "Ambassador", "Refer 10 friends", "\U{1F31F}", Social))
    ]
  }

  function AchievementIds(): seq<string> {
    seq(|Achievements()|, i requires 0 <= i < |Achievements()| => Achievements()[i].1.id)
  }

  /** `ACHIEVEMENTS[key]`: the entry stored under `key`, or undefined (None). */
  function LookupAchievement(key: string): (r: Option<Achievement>)
    ensures r.Some? <==> exists i :: 0 <= i < |Achievements()| && Achievements()[i].0 == key
    ensures r.Some? ==> exists i :: 0 <= i < |Achievements()| && Achievements()[i] == (key, r.value)
  {
    LookupFrom(key, 0)
  }

  function LookupFrom(key: string, from: nat): (r: Option<Achievement>)
    requires from <= |Achievements()|
    ensures r.Some? <==> exists i :: from <= i < |Achievements()| && Achievements()[i].0 == key
    ensures r.Some? ==> exists i :: from <= i < |Achievements()| && Achievements()[i] == (key, r.value)
    decreases |Achievements()| - from
  {
    if from == |Achievements()| then None
    else if Achievements()[from].0 == key then Some(Achievements()[from].1)
    else LookupFrom(key, from + 1)
  }

  /** Every key of the catalog is its entry's id in upper case. */
  lemma AchievementKeysAreUppercasedIds()
    ensures forall i :: 0 <= i < |Achievements()| ==> Achievements()[i].0 == ToUpper(Achievements()[i].1.id)
  {
    forall i | 0 <= i < |Achievements()|
      ensures Achievements()[i].0 == ToUpper(Achievements()[i].1.id)
    {
      KeyIsUppercasedId(i);
    }
  }

  lemma KeyIsUppercasedId(i: nat)
    requires i < |Achievements()|
    ensures Achievements()[i].0 == ToUpper(Achievements()[i].1.id)
  {
    if i == 0 {
      FirstPlantKey();
    } else if i == 1 {
      Reached10Key();
    } else if i == 2 {
      Reached20Key();
    } else if i == 3 {
      Reached30Key();
    } else if i == 4 {
      Reached40Key();
    } else if i == 5 {
      WeekStreak2Key();
    } else if i == 6 {
      WeekStreak4Key();
    } else if i == 7 {
      WeekStreak8Key();
    } else if i == 8 {
      WeekStreak12Key();
    } else if i == 9 {
      Try5CategoriesKey();
    } else if i == 10 {
      Try10CategoriesKey();
    } else if i == 11 {
      FirstChallengeWinKey();
    } else if i == 12 {
      Win5ChallengesKey();
    } else if i == 13 {
      Win10ChallengesKey();
    } else if i == 14 {
      Total100Key();
    } else if i == 15 {
      FirstReferralKey();
    } else if i == 16 {
      Refer5FriendsKey();
    } else if i == 17 {
      Refer10FriendsKey();
    }
  }

  // The uppercased id of each entry, one entry at a time.
  lemma FirstPlantKey() ensures Achievements()[0].0 == ToUpper(Achievements()[0].1.id) {
    assert ToUpper("first_plant") == "FIRST_PLANT";
  }
  lemma Reached10Key() ensures Achievements()[1].0 == ToUpper(Achievements()[1].1.id) {
    assert ToUpper("reached_10") == "REACHED_10";
  }
  lemma Reached20Key() ensures Achievements()[2].0 == ToUpper(Achievements()[2].1.id) {
    assert ToUpper("reached_20") == "REACHED_20";
  }
  lemma Reached30Key() ensures Achievements()[3].0 == ToUpper(Achievements()[3].1.id) {
    assert ToUpper("reached_30") == "REACHED_30";
  }
  lemma Reached40Key() ensures Achievements()[4].0 == ToUpper(Achievements()[4].1.id) {
    assert ToUpper("reached_40") == "REACHED_40";
  }
  lemma WeekStreak2Key() ensures Achievements()[5].0 == ToUpper(Achievements()[5].1.id) {
    assert ToUpper("week_streak_2") == "WEEK_STREAK_2";
  }
  lemma WeekStreak4Key() ensures Achievements()[6].0 == ToUpper(Achievements()[6].1.id) {
    assert ToUpper("week_streak_4") == "WEEK_STREAK_4";
  }
  lemma WeekStreak8Key() ensures Achievements()[7].0 == ToUpper(Achievements()[7].1.id) {
    assert ToUpper("week_streak_8") == "WEEK_STREAK_8";
  }
  lemma WeekStreak12Key() ensures Achievements()[8].0 == ToUpper(Achievements()[8].1.id) {
    assert ToUpper("week_streak_12") == "WEEK_STREAK_12";
  }
  lemma Try5CategoriesKey() ensures Achievements()[9].0 == ToUpper(Achievements()[9].1.id) {
    assert ToUpper("try_5_categories") == "TRY_5_CATEGORIES";
  }
  lemma Try10CategoriesKey() ensures Achievements()[10].0 == ToUpper(Achievements()[10].1.id) {
    assert ToUpper("try_10_categories") == "TRY_10_CATEGORIES";
  }
  lemma FirstChallengeWinKey() ensures Achievements()[11].0 == ToUpper(Achievements()[11].1.id) {
    assert ToUpper("first_challenge_win") == "FIRST_CHALLENGE_WIN";
  }
  lemma Win5ChallengesKey() ensures Achievements()[12].0 == ToUpper(Achievements()[12].1.id) {
    assert ToUpper("win_5_challenges") == "WIN_5_CHALLENGES";
  }
  lemma Win10ChallengesKey() ensures Achievements()[13].0 == ToUpper(Achievements()[13].1.id) {
    assert ToUpper("win_10_challenges") == "WIN_10_CHALLENGES";
  }
  lemma Total100Key() ensures Achievements()[14].0 == ToUpper(Achievements()[14].1.id) {
    assert ToUpper("total_100") == "TOTAL_100";
  }
  lemma FirstReferralKey() ensures Achievements()[15].0 == ToUpper(Achievements()[15].1.id) {
    assert ToUpper("first_referral") == "FIRST_REFERRAL";
  }
  lemma Refer5FriendsKey() ensures Achievements()[16].0 == ToUpper(Achievements()[16].1.id) {
    assert ToUpper("refer_5_friends") == "REFER_5_FRIENDS";
  }
  lemma Refer10FriendsKey() ensures Achievements()[17].0 == ToUpper(Achievements()[17].1.id) {
    assert ToUpper("refer_10_friends") == "REFER_10_FRIENDS";
  }

  function AchievementKeys(): seq<string> {
    seq(|Achievements()|, i requires 0 <= i < |Achievements()| => Achievements()[i].0)
  }

  /** The record's keys are pairwise distinct. */
  lemma AchievementKeysDistinct()
    ensures NoDuplicates(AchievementKeys())
  {
  }

  /** No two catalog entries share an id: equal ids would give equal keys. */
  lemma AchievementIdsDistinct()
    ensures NoDuplicates(AchievementIds())
  {
    var ids := AchievementIds();
    forall i, j | 0 <= i < j < |ids|
      ensures ids[i] != ids[j]
    {
      KeyIsUppercasedId(i);
      KeyIsUppercasedId(j);
      AchievementKeysDistinct();
      assert AchievementKeys()[i] != AchievementKeys()[j];
    }
  }

  lemma {:induction false} LookupFindsKey(i: nat, from: nat)
    requires from <= i < |Achievements()|
    requires NoDuplicates(AchievementKeys())
    ensures LookupFrom(Achievements()[i].0, from) == Some(Achievements()[i].1)
    decreases i - from
  {
    if from < i {
      assert AchievementKeys()[from] != AchievementKeys()[i];
      LookupFindsKey(i, from + 1);
    }
  }

  /** Looking an achievement up by its uppercased id finds that very entry. */
  lemma LookupByUppercasedId(i: nat)
    requires i < |Achievements()|
    ensures LookupAchievement(ToUpper(Achievements()[i].1.id)) == Some(Achievements()[i].1)
  {
    KeyIsUppercasedId(i);
    AchievementKeysDistinct();
    LookupFindsKey(i, 0);
  }
}
