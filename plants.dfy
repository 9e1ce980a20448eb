/** The plant catalog and its queries (core/src/plants/index.ts): lookup by
    id, case-insensitive search by name, and the category and "common"
    filters. The queries are stated over any plant list and applied to the
    catalog. */
module Plants {
  import opened Wrappers
  import opened Text
  import opened Collections
  import opened Types

  /** `CANONICAL_PLANTS`, in declaration order. */
  const CANONICAL_PLANTS: seq<Plant> :=
    [
      Plant("arugula", "Arugula", Vegetable, true),
      Plant("asparagus", "Asparagus", Vegetable, true),
      Plant("beetroot", "Beetroot", Vegetable, true),
      Plant("bell-pepper", "Bell Pepper", Vegetable, true),
      Plant("bok-choy", "Bok Choy", Vegetable, false),
      Plant("broccoli", "Broccoli", Vegetable, true),
      Plant("brussels-sprouts", "Brussels Sprouts", Vegetable, true),
      Plant("cabbage", "Cabbage", Vegetable, true),
      Plant("carrot", "Carrot", Vegetable, true),
      Plant("cauliflower", "Cauliflower", Vegetable, true),
      Plant("celery", "Celery", Vegetable, true),
      Plant("corn", "Corn", Vegetable, true),
      Plant("cucumber", "Cucumber", Vegetable, true),
      Plant("eggplant", "Eggplant", Vegetable, true),
      Plant("kale", "Kale", Vegetable, true),
      Plant("lettuce", "Lettuce", Vegetable, true),
      Plant("onion", "Onion", Vegetable, true),
      Plant("potato", "Potato", Vegetable, true),
      Plant("pumpkin", "Pumpkin", Vegetable, true),
      Plant("radish", "Radish", Vegetable, false),
      Plant("spinach", "Spinach", Vegetable, true),
      Plant("sweet-potato", "Sweet Potato", Vegetable, true),
      Plant("tomato", "Tomato", Vegetable, true),
      Plant("zucchini", "Zucchini", Vegetable, true),
      Plant("apple", "Apple", Fruit, true),
      Plant("avocado", "Avocado", Fruit, true),
      Plant("banana", "Banana", Fruit, true),
      Plant("blackberry", "Blackberry", Fruit, false),
      Plant("blueberry", "Blueberry", Fruit, true),
      Plant("cherry", "Cherry", Fruit, true),
      Plant("coconut", "Coconut", Fruit, false),
      Plant("cranberry", "Cranberry", Fruit, false),
      Plant("grape", "Grape", Fruit, true),
      Plant("grapefruit", "Grapefruit", Fruit, false),
      Plant("kiwi", "Kiwi", Fruit, true),
      Plant("lemon", "Lemon", Fruit, true),
      Plant("lime", "Lime", Fruit, true),
      Plant("mango", "Mango", Fruit, true),
      Plant("orange", "Orange", Fruit, true),
      Plant("papaya", "Papaya", Fruit, false),
      Plant("peach", "Peach", Fruit, true),
      Plant("pear", "Pear", Fruit, true),
      Plant("pineapple", "Pineapple", Fruit, true),
      Plant("plum", "Plum", Fruit, true),
      Plant("raspberry", "Raspberry", Fruit, true),
      Plant("strawberry", "Strawberry", Fruit, true),
      Plant("watermelon", "Watermelon", Fruit, true),
      Plant("barley", "Barley", Grain, false),
      Plant("buckwheat", "Buckwheat", Grain, false),
      Plant("millet", "Millet", Grain, false),
      Plant("oats", "Oats", Grain, true),
      Plant("quinoa", "Quinoa", Grain, true),
      Plant("rice-brown", "Brown Rice", Grain, true),
      Plant("rice-white", "White Rice", Grain, true),
      Plant("rye", "Rye", Grain, false),
      Plant("wheat", "Wheat", Grain, true),
      Plant("black-beans", "Black Beans", Legume, true),
      Plant("chickpeas", "Chickpeas", Legume, true),
      Plant("green-beans", "Green Beans", Legume, true),
      Plant("kidney-beans", "Kidney Beans", Legume, true),
      Plant("lentils", "Lentils", Legume, true),
      Plant("peanuts", "Peanuts", Legume, true),
      Plant("peas", "Peas", Legume, true),
      Plant("soybeans", "Soybeans", Legume, true),
      Plant("almonds", "Almonds", NutSeed, true),
      Plant("brazil-nuts", "Brazil Nuts", NutSeed, false),
      Plant("cashews", "Cashews", NutSeed, true),
      Plant("chia-seeds", "Chia Seeds", NutSeed, true),
      Plant("flax-seeds", "Flax Seeds", NutSeed, true),
      Plant("hazelnuts", "Hazelnuts", NutSeed, false),
      Plant("macadamia", "Macadamia", NutSeed, false),
      Plant("pecans", "Pecans", NutSeed, false),
      Plant("pine-nuts", "Pine Nuts", NutSeed, false),
      Plant("pistachios", "Pistachios", NutSeed, true),
      Plant("pumpkin-seeds", "Pumpkin Seeds", NutSeed, true),
      Plant("sesame-seeds", "Sesame Seeds", NutSeed, true),
      Plant("sunflower-seeds", "Sunflower Seeds", NutSeed, true),
      Plant("walnuts", "Walnuts", NutSeed, true),
      Plant("basil", "Basil", HerbSpice, true),
      Plant("black-pepper", "Black Pepper", HerbSpice, true),
      Plant("cayenne", "Cayenne", HerbSpice, false),
      Plant("cilantro", "Cilantro", HerbSpice, true),
      Plant("cinnamon", "Cinnamon", HerbSpice, true),
      Plant("cumin", "Cumin", HerbSpice, true),
      Plant("dill", "Dill", HerbSpice, false),
      Plant("garlic", "Garlic", HerbSpice, true),
      Plant("ginger", "Ginger", HerbSpice, true),
      Plant("mint", "Mint", HerbSpice, true),
      Plant("oregano", "Oregano", HerbSpice, true),
      Plant("paprika", "Paprika", HerbSpice, true),
      Plant("parsley", "Parsley", HerbSpice, true),
      Plant("rosemary", "Rosemary", HerbSpice, true),
      Plant("thyme", "Thyme", HerbSpice, true),
      Plant("turmeric", "Turmeric", HerbSpice, true),
      Plant("button-mushroom", "Button Mushroom", Mushroom, true),
      Plant("portobello", "Portobello", Mushroom, true),
      Plant("shiitake", "Shiitake", Mushroom, true),
      Plant("oyster-mushroom", "Oyster Mushroom", Mushroom, false),
      Plant("cremini", "Cremini", Mushroom, true),
      Plant("nori", "Nori", Seaweed, false),
      Plant("wakame", "Wakame", Seaweed, false),
      Plant("kombu", "Kombu", Seaweed, false),
      Plant("spirulina", "Spirulina", Seaweed, false)
    ]

  // ---------------------------------------------------------------------
  // Lookup by id
  // ---------------------------------------------------------------------

  function Ids(plants: seq<Plant>): (ids: seq<string>)
    ensures |ids| == |plants|
    ensures forall i :: 0 <= i < |plants| ==> ids[i] == plants[i].id
  {
    seq(|plants|, i requires 0 <= i < |plants| => plants[i].id)
  }

  /** `plants.find(p => p.id === id)`: the first plant with that id. */
  function FindById(plants: seq<Plant>, id: string): (r: Option<Plant>)
    ensures r.Some? ==> r.value.id == id && r.value in plants
  {
    if plants == [] then None
    else if plants[0].id == id then Some(plants[0])
    else FindById(plants[1..], id)
  }

  /** `getPlantById(id)` */
  function GetPlantById(id: string): Option<Plant> {
    FindById(CANONICAL_PLANTS, id)
  }

  /** The search finds nothing exactly when no plant has the id, and otherwise
      the plant at the first index carrying it. */
  lemma {:induction false} FindByIdFirst(plants: seq<Plant>, id: string)
    ensures FindById(plants, id).None? <==> forall i :: 0 <= i < |plants| ==> plants[i].id != id
    ensures FindById(plants, id).Some? ==>
      exists i :: 0 <= i < |plants| && plants[i] == FindById(plants, id).value
        && forall j :: 0 <= j < i ==> plants[j].id != id
  {
    if plants != [] && plants[0].id != id {
      FindByIdFirst(plants[1..], id);
      assert forall i :: 1 <= i < |plants| ==> plants[i] == plants[1..][i - 1];
      if FindById(plants, id).Some? {
        var i :| 0 <= i < |plants[1..]| && plants[1..][i] == FindById(plants, id).value
          && forall j :: 0 <= j < i ==> plants[1..][j].id != id;
        assert forall j :: 1 <= j < i + 1 ==> plants[j] == plants[1..][j - 1];
        assert plants[i + 1] == FindById(plants, id).value;
      }
    }
  }

  /** With pairwise distinct ids, looking up a plant's own id returns that plant. */
  lemma {:induction false} FindByOwnId(plants: seq<Plant>, i: nat)
    requires i < |plants|
    requires NoDuplicates(Ids(plants))
    ensures FindById(plants, plants[i].id) == Some(plants[i])
  {
    FindByIdFirst(plants, plants[i].id);
    var k :| 0 <= k < |plants| && plants[k] == FindById(plants, plants[i].id).value
      && forall j :: 0 <= j < k ==> plants[j].id != plants[i].id;
    assert Ids(plants)[k] == Ids(plants)[i];
  }

  /** `getPlantById` finds a catalog plant with the id exactly when there is one. */
  lemma GetPlantByIdMeaning(id: string)
    ensures GetPlantById(id).None? <==> forall p :: p in CANONICAL_PLANTS ==> p.id != id
    ensures GetPlantById(id).Some? ==> GetPlantById(id).value in CANONICAL_PLANTS && GetPlantById(id).value.id == id
  {
    FindByIdFirst(CANONICAL_PLANTS, id);
  }

  // ---------------------------------------------------------------------
  // Search by name
  // ---------------------------------------------------------------------

  /** `query.toLowerCase().trim()` */
  function NormalizeQuery(query: string): string {
    Trim(ToLower(query))
  }

  /** The filter test of `searchPlants`: the lower-cased name contains `q`. */
  function NameContains(q: string): Plant -> bool {
    (plant: Plant) => Contains(ToLower(plant.name), q)
  }

  /** The search of `searchPlants` over the list `plants`. */
  function SearchIn(plants: seq<Plant>, query: string): seq<Plant> {
    var lowerQuery := NormalizeQuery(query);
    if lowerQuery == [] then plants
    else Filter(plants, NameContains(lowerQuery))
  }

  /** `searchPlants(query)` */
  function SearchPlants(query: string): seq<Plant> {
    SearchIn(CANONICAL_PLANTS, query)
  }

  /** The normalised query is empty exactly when the query is white space only. */
  lemma NormalizeEmptyIff(query: string)
    ensures NormalizeQuery(query) == [] <==> AllWhitespace(query)
  {
    TrimEmptyIff(ToLower(query));
    LowerKeepsWhitespace(query);
  }

  /** An empty or white-space-only query returns the whole catalog. */
  lemma SearchBlankQuery(query: string)
    requires AllWhitespace(query)
    ensures SearchPlants(query) == CANONICAL_PLANTS
  {
    NormalizeEmptyIff(query);
  }

  /** Any other query returns exactly the catalog plants whose lower-cased name
      contains the normalised query, in catalog order. */
  lemma SearchMeaning(query: string)
    requires !AllWhitespace(query)
    ensures SearchPlants(query) == Filter(CANONICAL_PLANTS, NameContains(NormalizeQuery(query)))
    ensures forall p :: p in SearchPlants(query) <==>
      p in CANONICAL_PLANTS && Contains(ToLower(p.name), NormalizeQuery(query))
  {
    NormalizeEmptyIff(query);
    SearchInMeaning(CANONICAL_PLANTS, NormalizeQuery(query), query);
  }

  lemma SearchInMeaning(plants: seq<Plant>, q: string, query: string)
    requires q == NormalizeQuery(query) && q != []
    ensures SearchIn(plants, query) == Filter(plants, NameContains(q))
    ensures forall p :: p in SearchIn(plants, query) <==> p in plants && Contains(ToLower(p.name), q)
  {
  }

  /** Queries that differ only in the case of their letters find the same plants. */
  lemma SearchIgnoresCase(q1: string, q2: string)
    requires |q1| == |q2|
    requires forall i :: 0 <= i < |q1| ==> LowerChar(q1[i]) == LowerChar(q2[i])
    ensures SearchPlants(q1) == SearchPlants(q2)
  {
    SameLowerCase(q1, q2);
    SearchInSameQuery(CANONICAL_PLANTS, q1, q2);
  }

  lemma SearchInSameQuery(plants: seq<Plant>, q1: string, q2: string)
    requires NormalizeQuery(q1) == NormalizeQuery(q2)
    ensures SearchIn(plants, q1) == SearchIn(plants, q2)
  {
  }

  lemma SameLowerCase(q1: string, q2: string)
    requires |q1| == |q2|
    requires forall i :: 0 <= i < |q1| ==> LowerChar(q1[i]) == LowerChar(q2[i])
    ensures NormalizeQuery(q1) == NormalizeQuery(q2)
  {
    assert ToLower(q1) == ToLower(q2);
  }

  /** A longer query narrows the search: when the normalised `narrow` contains
      the normalised, non-empty `wide`, every plant found for `narrow` is also
      found for `wide`. */
  lemma SearchNarrows(wide: string, narrow: string)
    requires NormalizeQuery(wide) != []
    requires Contains(NormalizeQuery(narrow), NormalizeQuery(wide))
    ensures forall p :: p in SearchPlants(narrow) ==> p in SearchPlants(wide)
  {
    SearchInNarrows(CANONICAL_PLANTS, wide, narrow);
  }

  lemma SearchInNarrows(plants: seq<Plant>, wide: string, narrow: string)
    requires NormalizeQuery(wide) != []
    requires Contains(NormalizeQuery(narrow), NormalizeQuery(wide))
    ensures forall p :: p in SearchIn(plants, narrow) ==> p in SearchIn(plants, wide)
  {
    var w, n := NormalizeQuery(wide), NormalizeQuery(narrow);
    assert n != [];
    SearchInMeaning(plants, n, narrow);
    SearchInMeaning(plants, w, wide);
    forall p | p in SearchIn(plants, narrow)
      ensures p in SearchIn(plants, wide)
    {
      ContainsTransitive(ToLower(p.name), n, w);
    }
  }

  // ---------------------------------------------------------------------
  // Filters by category and by commonness
  // ---------------------------------------------------------------------

  function InCategory(category: PlantCategory): Plant -> bool {
    (plant: Plant) => plant.category == category
  }

  function IsCommon(): Plant -> bool {
    (plant: Plant) => plant.isCommon
  }

  /** `getPlantsByCategory(category)` */
  function GetPlantsByCategory(category: PlantCategory): seq<Plant> {
    Filter(CANONICAL_PLANTS, InCategory(category))
  }

  /** `getCommonPlants()` */
  function GetCommonPlants(): seq<Plant> {
    Filter(CANONICAL_PLANTS, IsCommon())
  }

  /** A plant is listed under a category exactly when it is a catalog plant of
      that category, and the common plants are exactly the catalog plants
      marked common. */
  lemma FiltersMeaning(category: PlantCategory)
    ensures forall p :: p in GetPlantsByCategory(category) <==> p in CANONICAL_PLANTS && p.category == category
    ensures forall p :: p in GetCommonPlants() <==> p in CANONICAL_PLANTS && p.isCommon
  {
  }

  /** The total length of the category lists of `plants`, over `categories`. */
  function CountByCategories(plants: seq<Plant>, categories: seq<PlantCategory>): nat {
    if categories == [] then 0
    else |Filter(plants, InCategory(categories[0]))| + CountByCategories(plants, categories[1..])
  }

  /** How often `c` occurs in `categories`. */
  function Occurrences(categories: seq<PlantCategory>, c: PlantCategory): nat {
    if categories == [] then 0
    else (if categories[0] == c then 1 else 0) + Occurrences(categories[1..], c)
  }

  lemma {:induction false} CountByCategoriesCons(p: Plant, rest: seq<Plant>, categories: seq<PlantCategory>)
    ensures CountByCategories([p] + rest, categories) == CountByCategories(rest, categories) + Occurrences(categories, p.category)
  {
    if categories != [] {
      assert ([p] + rest)[1..] == rest;
      CountByCategoriesCons(p, rest, categories[1..]);
    }
  }

  /** A value occurs once in a duplicate-free sequence that contains it. */
  lemma {:induction false} OccursOnce(categories: seq<PlantCategory>, c: PlantCategory)
    requires NoDuplicates(categories) && c in categories
    ensures Occurrences(categories, c) == 1
  {
    if categories[0] == c {
      OccursNever(categories[1..], c);
    } else {
      OccursOnce(categories[1..], c);
    }
  }

  lemma {:induction false} OccursNever(categories: seq<PlantCategory>, c: PlantCategory)
    requires c !in categories
    ensures Occurrences(categories, c) == 0
  {
    if categories != [] {
      OccursNever(categories[1..], c);
    }
  }

  lemma EachCategoryOnce(c: PlantCategory)
    ensures Occurrences(ALL_PLANT_CATEGORIES, c) == 1
  {
    PlantCategoryValuesDistinct();
    OccursOnce(ALL_PLANT_CATEGORIES, c);
  }

  /** The category lists partition any plant list: every plant is in the list
      of exactly one of the ten categories, so their lengths add up to its
      length. */
  lemma {:induction false} CategoriesPartition(plants: seq<Plant>)
    ensures CountByCategories(plants, ALL_PLANT_CATEGORIES) == |plants|
    ensures forall p, c :: p in plants ==> (p in Filter(plants, InCategory(c)) <==> c == p.category)
  {
    if plants == [] {
      assert forall categories: seq<PlantCategory> :: CountByCategories([], categories) == 0 by {
        forall categories: seq<PlantCategory> ensures CountByCategories([], categories) == 0 {
          ZeroCount(categories);
        }
      }
    } else {
      assert plants == [plants[0]] + plants[1..];
      CategoriesPartition(plants[1..]);
      CountByCategoriesCons(plants[0], plants[1..], ALL_PLANT_CATEGORIES);
      EachCategoryOnce(plants[0].category);
    }
  }

  lemma {:induction false} ZeroCount(categories: seq<PlantCategory>)
    ensures CountByCategories([], categories) == 0
  {
    if categories != [] {
      ZeroCount(categories[1..]);
    }
  }

  /** The catalog split by category has as many entries as the catalog. */
  lemma CatalogPartition()
    ensures CountByCategories(CANONICAL_PLANTS, ALL_PLANT_CATEGORIES) == |CANONICAL_PLANTS|
  {
    CategoriesPartition(CANONICAL_PLANTS);
  }
}
