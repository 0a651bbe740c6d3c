/**
 * The diet record the "new diet" and "edit diet" pages keep in their state, the
 * handlers both pages share (they are written identically in the two pages), the
 * all-or-nothing submission gate, and the shape of the payload sent on submit.
 */
module DietState {
  import opened Wrappers
  import opened JsValues
  import opened JsStrings
  import Sequences

  /** One food row of a meal; the macros are read-only in the form and derived from the catalog. */
  datatype FoodEntry = FoodEntry(
    foodDescription: string,
    portion: Value,
    carbohydrates: Value,
    protein: Value,
    totalFat: Value,
    calories: Value)

  datatype Meal = Meal(description: string, time: string, ordination: int, foodList: seq<FoodEntry>)

  /** The field is spelled `tdeee` throughout the pages and the service. */
  datatype Diet = Diet(description: string, weight: Value, height: Value, tdeee: Value, meals: seq<Meal>)

  /** The meal fields the form edits through the meal-change handler. */
  datatype MealField = MealDescription | MealTime

  /** The food-row fields the form edits through the food-change handler. */
  datatype FoodField = FoodDescription | Portion | Carbohydrates | Protein | TotalFat | Calories

  /** The state the "new diet" page starts from. */
  const InitialDiet := Diet("", Str(""), Str(""), Str(""), [])

  /** The row "add food" appends: no food chosen, portion 1, all macros 0. */
  const BlankEntry := FoodEntry("", N(Fin(1.0)), N(Fin(0.0)), N(Fin(0.0)), N(Fin(0.0)), N(Fin(0.0)))

  /** The meal "add meal" appends, numbered with the given ordination. */
  function NewMeal(ordination: int): Meal {
    Meal("", "", ordination, [])
  }

  /** The diet-level fields, which the meal and food handlers never touch. */
  predicate SameHeader(d: Diet, e: Diet) {
    d.description == e.description && d.weight == e.weight && d.height == e.height && d.tdeee == e.tdeee
  }

  /** Everything of a meal except its food list. */
  predicate SameMealHeader(m: Meal, n: Meal) {
    m.description == n.description && m.time == n.time && m.ordination == n.ordination
  }

  // ---------------------------------------------------------------------------
  // Meal handlers

  /** Appends one empty meal whose ordination is the meal count plus one. */
  function AddMeal(d: Diet): (r: Diet)
    ensures SameHeader(d, r)
    ensures |r.meals| == |d.meals| + 1 && r.meals[..|d.meals|] == d.meals
    ensures var m := r.meals[|d.meals|];
      m.description == "" && m.time == "" && m.foodList == [] && m.ordination == |d.meals| + 1
  {
    d.(meals := d.meals + [NewMeal(|d.meals| + 1)])
  }

  /** Drops the meal at `mealIndex`; the other meals keep their order and their ordinations. */
  function RemoveMeal(d: Diet, mealIndex: int): (r: Diet)
    ensures SameHeader(d, r)
    ensures 0 <= mealIndex < |d.meals| ==> |r.meals| == |d.meals| - 1
    ensures !(0 <= mealIndex < |d.meals|) ==> r == d
    ensures forall k :: 0 <= k < |r.meals| && k < mealIndex ==> r.meals[k] == d.meals[k]
    ensures forall k :: 0 <= mealIndex <= k < |r.meals| ==> r.meals[k] == d.meals[k + 1]
  {
    d.(meals := Sequences.RemoveAt(d.meals, mealIndex))
  }

  /** The ordinations run 1, 2, ..., n in meal order. */
  predicate Numbered(meals: seq<Meal>) {
    forall k :: 0 <= k < |meals| ==> meals[k].ordination == k + 1
  }

  predicate DistinctOrdinations(meals: seq<Meal>) {
    forall i, j :: 0 <= i < j < |meals| ==> meals[i].ordination != meals[j].ordination
  }

  /** Adding meals to a freshly numbered diet keeps it numbered, so ordinations stay distinct. */
  lemma AddMealKeepsNumbering(d: Diet)
    requires Numbered(d.meals)
    ensures Numbered(AddMeal(d).meals) && DistinctOrdinations(AddMeal(d).meals)
  {
  }

  /**
   * Ordinations are not renumbered on removal: removing the first of two or more
   * numbered meals and adding one gives two meals with the same ordination.
   */
  lemma RemoveThenAddDuplicatesOrdination(d: Diet)
    requires Numbered(d.meals) && |d.meals| >= 2
    ensures !DistinctOrdinations(AddMeal(RemoveMeal(d, 0)).meals)
  {
    var n := |d.meals|;
    var r := AddMeal(RemoveMeal(d, 0)).meals;
    assert r[n - 2] == d.meals[n - 1];
    assert r[n - 2].ordination == r[n - 1].ordination == n;
  }

  /** Removing the meal just added gives the diet back. */
  lemma RemoveUndoesAddMeal(d: Diet)
    ensures RemoveMeal(AddMeal(d), |d.meals|) == d
  {
    assert AddMeal(d).meals[..|d.meals|] == d.meals;
  }

  // ---------------------------------------------------------------------------
  // Food-row handlers

  /** Appends a blank row to the meal at `mealIndex` only. */
  function AddFood(d: Diet, mealIndex: int): (r: Diet)
    ensures SameHeader(d, r) && |r.meals| == |d.meals|
    ensures forall k :: 0 <= k < |d.meals| && k != mealIndex ==> r.meals[k] == d.meals[k]
    ensures 0 <= mealIndex < |d.meals| ==>
      SameMealHeader(d.meals[mealIndex], r.meals[mealIndex])
      && r.meals[mealIndex].foodList == d.meals[mealIndex].foodList + [BlankEntry]
  {
    d.(meals := Sequences.MapAt(d.meals, mealIndex, (m: Meal) => m.(foodList := m.foodList + [BlankEntry])))
  }

  /** Drops row `foodIndex` of the meal at `mealIndex` only. */
  function RemoveFood(d: Diet, mealIndex: int, foodIndex: int): (r: Diet)
    ensures SameHeader(d, r) && |r.meals| == |d.meals|
    ensures forall k :: 0 <= k < |d.meals| && k != mealIndex ==> r.meals[k] == d.meals[k]
    ensures 0 <= mealIndex < |d.meals| ==>
      SameMealHeader(d.meals[mealIndex], r.meals[mealIndex])
      && r.meals[mealIndex].foodList == Sequences.RemoveAt(d.meals[mealIndex].foodList, foodIndex)
  {
    d.(meals := Sequences.MapAt(d.meals, mealIndex,
                                (m: Meal) => m.(foodList := Sequences.RemoveAt(m.foodList, foodIndex))))
  }

  /** Removing the row just added to a meal gives the diet back. */
  lemma RemoveUndoesAddFood(d: Diet, mealIndex: int)
    requires 0 <= mealIndex < |d.meals|
    ensures RemoveFood(AddFood(d, mealIndex), mealIndex, |d.meals[mealIndex].foodList|) == d
  {
    var m := d.meals[mealIndex];
    var r := RemoveFood(AddFood(d, mealIndex), mealIndex, |m.foodList|);
    assert (m.foodList + [BlankEntry])[..|m.foodList|] == m.foodList;
    assert r.meals[mealIndex] == m;
    assert r.meals == d.meals;
  }

  /** A meal field as text. */
  function MealFieldValue(m: Meal, field: MealField): string {
    match field
    case MealDescription => m.description
    case MealTime => m.time
  }

  /** The meal with its description or its time set to new text, everything else kept. */
  function SetMealField(m: Meal, field: MealField, value: string): (r: Meal)
    ensures MealFieldValue(r, field) == value
    ensures forall g :: g != field ==> MealFieldValue(r, g) == MealFieldValue(m, g)
    ensures r.ordination == m.ordination && r.foodList == m.foodList
  {
    match field
    case MealDescription => m.(description := value)
    case MealTime => m.(time := value)
  }

  /** Sets one field of the meal at `mealIndex`; nothing else in the diet changes. */
  function ChangeMeal(d: Diet, mealIndex: int, field: MealField, value: string): (r: Diet)
    ensures SameHeader(d, r) && |r.meals| == |d.meals|
    ensures forall k :: 0 <= k < |d.meals| && k != mealIndex ==> r.meals[k] == d.meals[k]
    ensures 0 <= mealIndex < |d.meals| ==>
      var m, n := d.meals[mealIndex], r.meals[mealIndex];
      && MealFieldValue(n, field) == value
      && (forall g :: g != field ==> MealFieldValue(n, g) == MealFieldValue(m, g))
      && n.ordination == m.ordination && n.foodList == m.foodList
  {
    d.(meals := Sequences.MapAt(d.meals, mealIndex, (m: Meal) => SetMealField(m, field, value)))
  }

  /** A food-row field as a value; the description is text. */
  function FoodFieldValue(e: FoodEntry, field: FoodField): Value {
    match field
    case FoodDescription => Str(e.foodDescription)
    case Portion => e.portion
    case Carbohydrates => e.carbohydrates
    case Protein => e.protein
    case TotalFat => e.totalFat
    case Calories => e.calories
  }

  /** `{ ...food, [field]: value }`: the raw text of the input is stored. */
  function SetFoodField(e: FoodEntry, field: FoodField, value: string): (r: FoodEntry)
    ensures FoodFieldValue(r, field) == Str(value)
    ensures forall g :: g != field ==> FoodFieldValue(r, g) == FoodFieldValue(e, g)
  {
    match field
    case FoodDescription => e.(foodDescription := value)
    case Portion => e.(portion := Str(value))
    case Carbohydrates => e.(carbohydrates := Str(value))
    case Protein => e.(protein := Str(value))
    case TotalFat => e.(totalFat := Str(value))
    case Calories => e.(calories := Str(value))
  }

  /**
   * Applies a row update to row `foodIndex` of the meal at `mealIndex`: every other
   * row of every meal, every meal's own fields and the diet's fields are unchanged.
   */
  function UpdateFood(d: Diet, mealIndex: int, foodIndex: int, update: FoodEntry -> FoodEntry): (r: Diet)
    ensures SameHeader(d, r) && |r.meals| == |d.meals|
    ensures forall k :: 0 <= k < |d.meals| ==>
      SameMealHeader(d.meals[k], r.meals[k]) && |r.meals[k].foodList| == |d.meals[k].foodList|
    ensures forall k, j :: 0 <= k < |d.meals| && 0 <= j < |d.meals[k].foodList| ==>
      r.meals[k].foodList[j] == (if k == mealIndex && j == foodIndex then update(d.meals[k].foodList[j])
                                 else d.meals[k].foodList[j])
  {
    d.(meals := Sequences.MapAt(d.meals, mealIndex,
                                (m: Meal) => m.(foodList := Sequences.MapAt(m.foodList, foodIndex, update))))
  }

  // ---------------------------------------------------------------------------
  // Submission gate

  /** The first failing check of the gate; each comes with its own message. */
  datatype SubmitError = MissingDescription | MissingRequiredFields | NoMeals | IncompleteMeals

  function ErrorMessage(e: SubmitError): string {
    match e
    case MissingDescription => "A descrição é obrigatória"
    case MissingRequiredFields => "Preencha todos os campos obrigatórios"
    case NoMeals => "Adicione pelo menos uma refeição"
    case IncompleteMeals => "Preencha todos os campos das refeições e alimentos"
  }

  predicate FoodComplete(e: FoodEntry) {
    Trim(e.foodDescription) != "" && Truthy(e.portion)
  }

  predicate MealComplete(m: Meal) {
    && Trim(m.description) != ""
    && m.time != ""
    && |m.foodList| > 0
    && forall j :: 0 <= j < |m.foodList| ==> FoodComplete(m.foodList[j])
  }

  predicate HeaderComplete(d: Diet) {
    Truthy(d.weight) && Truthy(d.height) && Truthy(d.tdeee)
  }

  /** A diet the gate lets through: every check holds. */
  predicate Submittable(d: Diet) {
    && Trim(d.description) != ""
    && HeaderComplete(d)
    && |d.meals| > 0
    && forall i :: 0 <= i < |d.meals| ==> MealComplete(d.meals[i])
  }

  /** Whether some row of the list has a blank description or a falsy portion. */
  function SomeFoodInvalid(foods: seq<FoodEntry>): (r: bool)
    ensures r <==> exists j :: 0 <= j < |foods| && !FoodComplete(foods[j])
    decreases |foods|
  {
    if foods == [] then false
    else
      var first := Trim(foods[0].foodDescription) == "" || !Truthy(foods[0].portion);
      var rest := SomeFoodInvalid(foods[1..]);
      SomeFoodInvalidStep(foods, first, rest);
      first || rest
  }

  lemma SomeFoodInvalidStep(foods: seq<FoodEntry>, first: bool, rest: bool)
    requires |foods| > 0
    requires first <==> !FoodComplete(foods[0])
    requires rest <==> exists j :: 0 <= j < |foods| - 1 && !FoodComplete(foods[1..][j])
    ensures first || rest <==> exists j :: 0 <= j < |foods| && !FoodComplete(foods[j])
  {
    if rest {
      var j :| 0 <= j < |foods| - 1 && !FoodComplete(foods[1..][j]);
      assert foods[j + 1] == foods[1..][j];
    }
    if exists j :: 0 <= j < |foods| && !FoodComplete(foods[j]) {
      var j :| 0 <= j < |foods| && !FoodComplete(foods[j]);
      if j > 0 {
        assert foods[j] == foods[1..][j - 1];
      }
    }
  }

  /** The callback the gate passes to `meals.some`. */
  function MealInvalid(m: Meal): (r: bool)
    ensures r <==> !MealComplete(m)
  {
    Trim(m.description) == "" || m.time == "" || |m.foodList| == 0 || SomeFoodInvalid(m.foodList)
  }

  /** Whether some meal of the list fails its check. */
  function SomeMealInvalid(meals: seq<Meal>): (r: bool)
    ensures r <==> exists i :: 0 <= i < |meals| && !MealComplete(meals[i])
    decreases |meals|
  {
    if meals == [] then false
    else
      var first := MealInvalid(meals[0]);
      var rest := SomeMealInvalid(meals[1..]);
      SomeMealInvalidStep(meals, first, rest);
      first || rest
  }

  lemma SomeMealInvalidStep(meals: seq<Meal>, first: bool, rest: bool)
    requires |meals| > 0
    requires first <==> !MealComplete(meals[0])
    requires rest <==> exists i :: 0 <= i < |meals| - 1 && !MealComplete(meals[1..][i])
    ensures first || rest <==> exists i :: 0 <= i < |meals| && !MealComplete(meals[i])
  {
    if rest {
      var i :| 0 <= i < |meals| - 1 && !MealComplete(meals[1..][i]);
      assert meals[i + 1] == meals[1..][i];
    }
    if exists i :: 0 <= i < |meals| && !MealComplete(meals[i]) {
      var i :| 0 <= i < |meals| && !MealComplete(meals[i]);
      if i > 0 {
        assert meals[i] == meals[1..][i - 1];
      }
    }
  }

  /**
   * The gate of the submit handler: the checks run in order and the first failing
   * one decides the error; a diet passes exactly when it is submittable.
   */
  function CheckDiet(d: Diet): (r: Option<SubmitError>)
    ensures r.None? <==> Submittable(d)
    ensures r == Some(MissingDescription) <==> Trim(d.description) == ""
    ensures r == Some(MissingRequiredFields) <==> Trim(d.description) != "" && !HeaderComplete(d)
    ensures r == Some(NoMeals) <==> Trim(d.description) != "" && HeaderComplete(d) && |d.meals| == 0
    ensures r == Some(IncompleteMeals) <==>
      && Trim(d.description) != "" && HeaderComplete(d) && |d.meals| > 0
      && exists i :: 0 <= i < |d.meals| && !MealComplete(d.meals[i])
  {
    if Trim(d.description) == "" then Some(MissingDescription)
    else if !Truthy(d.weight) || !Truthy(d.height) || !Truthy(d.tdeee) then Some(MissingRequiredFields)
    else if |d.meals| == 0 then Some(NoMeals)
    else if SomeMealInvalid(d.meals) then Some(IncompleteMeals)
    else None
  }

  // ---------------------------------------------------------------------------
  // Payload sent on submit

  datatype FoodPayload = FoodPayload(
    foodDescription: string,
    portion: Num,
    carbohydrates: Num,
    protein: Num,
    totalFat: Num,
    calories: Num)

  datatype MealPayload = MealPayload(description: string, time: string, ordination: int, foodList: seq<FoodPayload>)

  datatype DietPayload = DietPayload(description: string, weight: Num, height: Num, tdeee: Num, meals: seq<MealPayload>)

  /** No macro of the row is NaN. */
  predicate MacrosAreNumbers(f: FoodPayload) {
    !f.carbohydrates.NaN? && !f.protein.NaN? && !f.totalFat.NaN? && !f.calories.NaN?
  }

  /** Every macro of a payload is a number. */
  predicate PayloadMacrosAreNumbers(p: DietPayload) {
    forall i, j :: 0 <= i < |p.meals| && 0 <= j < |p.meals[i].foodList| ==> MacrosAreNumbers(p.meals[i].foodList[j])
  }

  function MealPayloadOf(m: Meal, text: string -> string, food: FoodEntry -> FoodPayload): MealPayload {
    MealPayload(text(m.description), m.time, m.ordination,
                seq(|m.foodList|, j requires 0 <= j < |m.foodList| => food(m.foodList[j])))
  }

  /**
   * The shape every payload builder shares: weight, height and tdeee go through
   * `Number`, the descriptions through `text`, each row through `food`, and meals
   * and rows keep their number and their order; time and ordination pass unchanged.
   */
  function BuildPayload(d: Diet, parse: Parser, text: string -> string, food: FoodEntry -> FoodPayload)
    : (r: DietPayload)
    ensures r.description == text(d.description)
    ensures r.weight == ToNumber(parse, d.weight)
    ensures r.height == ToNumber(parse, d.height)
    ensures r.tdeee == ToNumber(parse, d.tdeee)
    ensures |r.meals| == |d.meals|
    ensures forall i :: 0 <= i < |d.meals| ==>
      && r.meals[i].description == text(d.meals[i].description)
      && r.meals[i].time == d.meals[i].time
      && r.meals[i].ordination == d.meals[i].ordination
      && |r.meals[i].foodList| == |d.meals[i].foodList|
    ensures forall i, j :: 0 <= i < |d.meals| && 0 <= j < |d.meals[i].foodList| ==>
      r.meals[i].foodList[j] == food(d.meals[i].foodList[j])
  {
    DietPayload(text(d.description), ToNumber(parse, d.weight), ToNumber(parse, d.height),
                ToNumber(parse, d.tdeee),
                seq(|d.meals|, i requires 0 <= i < |d.meals| => MealPayloadOf(d.meals[i], text, food)))
  }
}
