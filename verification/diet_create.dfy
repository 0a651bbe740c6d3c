/**
 * The "new diet" page: its food-row handler scales the catalog macros by the
 * portion directly (the catalog value is taken as "per unit of portion"), and its
 * payload builder trims descriptions and turns unusable macros into 0.
 */
module DietCreate {
  import opened Wrappers
  import opened JsValues
  import opened JsStrings
  import opened Catalog
  import opened DietState

  /** The row's four macros are the given numbers. */
  predicate HasMacros(e: FoodEntry, carbohydrates: Num, protein: Num, totalFat: Num, calories: Num) {
    && e.carbohydrates == N(carbohydrates)
    && e.protein == N(protein)
    && e.totalFat == N(totalFat)
    && e.calories == N(calories)
  }

  /**
   * The food-row handler of the page for one row. Choosing a catalog food sets the
   * portion to 1 and copies its macros; a new portion for a catalog food multiplies
   * each catalog macro by `Number(value)`, with no check of the number; any other
   * change, and any change whose description is not in the catalog, stores the text.
   */
  function ChangeFood(foods: seq<Food>, parse: Parser, e: FoodEntry, field: FoodField, value: string)
    : (r: FoodEntry)
    ensures field == FoodDescription && FindByDescription(foods, value).Some? ==>
      var c := FindByDescription(foods, value).value;
      && r.foodDescription == value && r.portion == N(Fin(1.0))
      && HasMacros(r, Fin(c.carbohydrates), Fin(c.protein), Fin(c.totalFat), Fin(c.calories))
    ensures field == Portion && FindByDescription(foods, e.foodDescription).Some? ==>
      var c := FindByDescription(foods, e.foodDescription).value;
      var p := ToNumber(parse, Str(value));
      && r.foodDescription == e.foodDescription && r.portion == N(p)
      && HasMacros(r, Mul(Fin(c.carbohydrates), p), Mul(Fin(c.protein), p),
                      Mul(Fin(c.totalFat), p), Mul(Fin(c.calories), p))
    ensures (!(field == FoodDescription && FindByDescription(foods, value).Some?)
             && !(field == Portion && FindByDescription(foods, e.foodDescription).Some?)) ==>
      r == SetFoodField(e, field, value)
  {
    match field
    case FoodDescription =>
      (match FindByDescription(foods, value)
       case Some(c) =>
         e.(foodDescription := value, portion := N(Fin(1.0)),
            carbohydrates := N(Fin(c.carbohydrates)), protein := N(Fin(c.protein)),
            totalFat := N(Fin(c.totalFat)), calories := N(Fin(c.calories)))
       case None => SetFoodField(e, field, value))
    case Portion =>
      (match FindByDescription(foods, e.foodDescription)
       case Some(c) =>
         var p := ToNumber(parse, Str(value));
         e.(portion := N(p),
            carbohydrates := N(Mul(Fin(c.carbohydrates), p)), protein := N(Mul(Fin(c.protein), p)),
            totalFat := N(Mul(Fin(c.totalFat), p)), calories := N(Mul(Fin(c.calories), p)))
       case None => SetFoodField(e, field, value))
    case _ => SetFoodField(e, field, value)
  }

  /** The handler on the whole diet: only row `foodIndex` of meal `mealIndex` changes. */
  function HandleFoodChange(d: Diet, foods: seq<Food>, parse: Parser, mealIndex: int, foodIndex: int,
                            field: FoodField, value: string): (r: Diet)
    ensures SameHeader(d, r) && |r.meals| == |d.meals|
    ensures forall k :: 0 <= k < |d.meals| ==>
      SameMealHeader(d.meals[k], r.meals[k]) && |r.meals[k].foodList| == |d.meals[k].foodList|
    ensures forall k, j :: 0 <= k < |d.meals| && 0 <= j < |d.meals[k].foodList| ==>
      r.meals[k].foodList[j] == (if k == mealIndex && j == foodIndex
                                 then ChangeFood(foods, parse, d.meals[k].foodList[j], field, value)
                                 else d.meals[k].foodList[j])
  {
    UpdateFood(d, mealIndex, foodIndex, (e: FoodEntry) => ChangeFood(foods, parse, e, field, value))
  }

  /**
   * A portion that parses to the number `p` sets every macro to exactly the catalog
   * value times `p`, whatever its sign: negative portions are not rejected.
   */
  lemma PortionScalesDirectly(foods: seq<Food>, parse: Parser, e: FoodEntry, value: string, c: Food, p: real)
    requires FindByDescription(foods, e.foodDescription) == Some(c)
    requires parse(value) == Some(p)
    ensures var r := ChangeFood(foods, parse, e, Portion, value);
      && r.portion == N(Fin(p))
      && HasMacros(r, Fin(c.carbohydrates * p), Fin(c.protein * p), Fin(c.totalFat * p), Fin(c.calories * p))
  {
    assert ToNumber(parse, Str(value)) == Fin(p);
  }

  /** A portion that does not parse makes the portion and every macro NaN. */
  lemma UnparsablePortionGivesNaN(foods: seq<Food>, parse: Parser, e: FoodEntry, value: string)
    requires FindByDescription(foods, e.foodDescription).Some?
    requires parse(value).None?
    ensures HasMacros(ChangeFood(foods, parse, e, Portion, value), NaN, NaN, NaN, NaN)
  {
  }

  /**
   * Choosing a catalog food and then typing a portion of 1 gives the same row as just
   * choosing it: the selection is the portion-1 point of the direct scaling.
   */
  lemma SelectionIsUnitPortion(foods: seq<Food>, parse: Parser, e: FoodEntry, value: string, one: string)
    requires FindByDescription(foods, value).Some?
    requires parse(one) == Some(1.0)
    ensures var s := ChangeFood(foods, parse, e, FoodDescription, value);
      ChangeFood(foods, parse, s, Portion, one) == s
  {
    var c := FindByDescription(foods, value).value;
    var s := ChangeFood(foods, parse, e, FoodDescription, value);
    assert s.foodDescription == value;
    PortionScalesDirectly(foods, parse, s, one, c, 1.0);
  }

  /** The row as the page submits it: descriptions trimmed, `Number(x) || 0` for the macros. */
  function FoodPayloadOf(parse: Parser, e: FoodEntry): FoodPayload {
    FoodPayload(Trim(e.foodDescription), ToNumber(parse, e.portion),
                OrZero(ToNumber(parse, e.carbohydrates)), OrZero(ToNumber(parse, e.protein)),
                OrZero(ToNumber(parse, e.totalFat)), OrZero(ToNumber(parse, e.calories)))
  }

  /** A macro of the payload: `Number(x) || 0`, the number itself when truthy and 0 otherwise. */
  predicate MacroSent(parse: Parser, x: Value, n: Num) {
    var m := ToNumber(parse, x);
    (Truthy(N(m)) ==> n == m) && (!Truthy(N(m)) ==> n == Fin(0.0))
  }

  /**
   * A row as sent for the row `e` of the page: the description trimmed, the portion
   * through `Number`, and each macro `Number(x) || 0`.
   */
  predicate RowSent(parse: Parser, e: FoodEntry, f: FoodPayload) {
      && f.foodDescription == Trim(e.foodDescription)
      && f.portion == ToNumber(parse, e.portion)
      && MacroSent(parse, e.carbohydrates, f.carbohydrates)
      && MacroSent(parse, e.protein, f.protein)
      && MacroSent(parse, e.totalFat, f.totalFat)
      && MacroSent(parse, e.calories, f.calories)
  }

  lemma FoodPayloadOfSent(parse: Parser, e: FoodEntry)
    ensures RowSent(parse, e, FoodPayloadOf(parse, e)) && MacrosAreNumbers(FoodPayloadOf(parse, e))
  {
  }

  /**
   * The payload of the page: weight, height and tdeee go through `Number`, meals and
   * rows keep their number and order, every description is trimmed, portions go
   * through `Number`, and no macro is NaN.
   */
  function Payload(d: Diet, parse: Parser): (r: DietPayload)
    ensures r.description == Trim(d.description) && Trim(r.description) == r.description
    ensures r.weight == ToNumber(parse, d.weight)
    ensures r.height == ToNumber(parse, d.height)
    ensures r.tdeee == ToNumber(parse, d.tdeee)
    ensures |r.meals| == |d.meals|
    ensures forall i :: 0 <= i < |d.meals| ==>
      && r.meals[i].description == Trim(d.meals[i].description)
      && r.meals[i].time == d.meals[i].time
      && r.meals[i].ordination == d.meals[i].ordination
      && |r.meals[i].foodList| == |d.meals[i].foodList|
    ensures forall i, j :: 0 <= i < |d.meals| && 0 <= j < |d.meals[i].foodList| ==>
      RowSent(parse, d.meals[i].foodList[j], r.meals[i].foodList[j])
    ensures PayloadMacrosAreNumbers(r)
  {
    var r := BuildPayload(d, parse, Trim, (e: FoodEntry) => FoodPayloadOf(parse, e));
    PayloadFacts(d, parse, r);
    r
  }

  lemma PayloadFacts(d: Diet, parse: Parser, r: DietPayload)
    requires r == BuildPayload(d, parse, Trim, (e: FoodEntry) => FoodPayloadOf(parse, e))
    ensures r.description == Trim(d.description) && Trim(r.description) == r.description
    ensures forall i, j :: 0 <= i < |d.meals| && 0 <= j < |d.meals[i].foodList| ==>
      RowSent(parse, d.meals[i].foodList[j], r.meals[i].foodList[j])
    ensures PayloadMacrosAreNumbers(r)
  {
    TrimIdempotent(d.description);
    forall i, j | 0 <= i < |d.meals| && 0 <= j < |d.meals[i].foodList|
      ensures RowSent(parse, d.meals[i].foodList[j], r.meals[i].foodList[j])
      ensures MacrosAreNumbers(r.meals[i].foodList[j])
    {
      PayloadRow(d, parse, r, i, j);
    }
  }

  lemma PayloadRow(d: Diet, parse: Parser, r: DietPayload, i: nat, j: nat)
    requires r == BuildPayload(d, parse, Trim, (e: FoodEntry) => FoodPayloadOf(parse, e))
    requires i < |d.meals| && j < |d.meals[i].foodList|
    ensures RowSent(parse, d.meals[i].foodList[j], r.meals[i].foodList[j])
    ensures MacrosAreNumbers(r.meals[i].foodList[j])
  {
    FoodPayloadOfSent(parse, d.meals[i].foodList[j]);
  }

  /**
   * The submit handler: nothing is sent unless the diet passes the gate, the first
   * failing check names the error, and a passing diet is sent as `Payload`.
   */
  function Submit(d: Diet, parse: Parser): (r: Result<DietPayload, SubmitError>)
    ensures r.Success? <==> Submittable(d)
    ensures r.Failure? ==> CheckDiet(d) == Some(r.error)
    ensures r.Success? ==> r.value == Payload(d, parse) && |r.value.meals| > 0
  {
    match CheckDiet(d)
    case Some(err) => Failure(err)
    case None => Success(Payload(d, parse))
  }
}
