/**
 * The request body `createDiet` builds from the diet data it is handed, before the
 * HTTP call (the call itself is not modelled).
 */
module DietService {
  import opened JsValues
  import opened DietState
  import DietCreate

  /** A row of the request: the description as given, `Number` on the portion, `Number(x) || 0` on the macros. */
  function FoodRequestOf(parse: Parser, e: FoodEntry): FoodPayload {
    FoodPayload(e.foodDescription, ToNumber(parse, e.portion),
                OrZero(ToNumber(parse, e.carbohydrates)), OrZero(ToNumber(parse, e.protein)),
                OrZero(ToNumber(parse, e.totalFat)), OrZero(ToNumber(parse, e.calories)))
  }

  function Identity(s: string): string {
    s
  }

  /**
   * The request body: meals and rows keep their number and order; descriptions,
   * times and ordinations pass unchanged; weight, height, tdeee and portions go
   * through `Number` with no default; each macro is `Number(x)`, or 0 when that is
   * NaN or 0.
   */
  function RequestData(d: Diet, parse: Parser): (r: DietPayload)
    ensures r.description == d.description
    ensures r.weight == ToNumber(parse, d.weight)
    ensures r.height == ToNumber(parse, d.height)
    ensures r.tdeee == ToNumber(parse, d.tdeee)
    ensures |r.meals| == |d.meals|
    ensures forall i :: 0 <= i < |d.meals| ==>
      && r.meals[i].description == d.meals[i].description
      && r.meals[i].time == d.meals[i].time
      && r.meals[i].ordination == d.meals[i].ordination
      && |r.meals[i].foodList| == |d.meals[i].foodList|
    ensures forall i, j :: 0 <= i < |d.meals| && 0 <= j < |d.meals[i].foodList| ==>
      var e, f := d.meals[i].foodList[j], r.meals[i].foodList[j];
      && f.foodDescription == e.foodDescription
      && f.portion == ToNumber(parse, e.portion)
      && DietCreate.MacroSent(parse, e.carbohydrates, f.carbohydrates)
      && DietCreate.MacroSent(parse, e.protein, f.protein)
      && DietCreate.MacroSent(parse, e.totalFat, f.totalFat)
      && DietCreate.MacroSent(parse, e.calories, f.calories)
  {
    var r := BuildPayload(d, parse, Identity, (e: FoodEntry) => FoodRequestOf(parse, e));
    RequestFacts(d, parse, r);
    r
  }

  lemma RequestFacts(d: Diet, parse: Parser, r: DietPayload)
    requires r == BuildPayload(d, parse, Identity, (e: FoodEntry) => FoodRequestOf(parse, e))
    ensures forall i, j :: 0 <= i < |d.meals| && 0 <= j < |d.meals[i].foodList| ==>
      var e, f := d.meals[i].foodList[j], r.meals[i].foodList[j];
      && f.foodDescription == e.foodDescription
      && f.portion == ToNumber(parse, e.portion)
      && DietCreate.MacroSent(parse, e.carbohydrates, f.carbohydrates)
      && DietCreate.MacroSent(parse, e.protein, f.protein)
      && DietCreate.MacroSent(parse, e.totalFat, f.totalFat)
      && DietCreate.MacroSent(parse, e.calories, f.calories)
  {
  }

  /** A payload handed to the service as a JavaScript object: every number is a number field. */
  function AsDiet(p: DietPayload): Diet {
    Diet(p.description, N(p.weight), N(p.height), N(p.tdeee),
         seq(|p.meals|, i requires 0 <= i < |p.meals| => AsMeal(p.meals[i])))
  }

  function AsMeal(m: MealPayload): Meal {
    Meal(m.description, m.time, m.ordination,
         seq(|m.foodList|, j requires 0 <= j < |m.foodList| => AsEntry(m.foodList[j])))
  }

  function AsEntry(f: FoodPayload): FoodEntry {
    FoodEntry(f.foodDescription, N(f.portion), N(f.carbohydrates), N(f.protein), N(f.totalFat), N(f.calories))
  }

  /**
   * The service's normalisation changes nothing of what the "new diet" page sends:
   * applied to that page's payload it gives the same payload back.
   */
  lemma RequestDataKeepsCreatePayload(d: Diet, parse: Parser)
    ensures RequestData(AsDiet(DietCreate.Payload(d, parse)), parse) == DietCreate.Payload(d, parse)
  {
    RequestDataKeepsNumbers(DietCreate.Payload(d, parse), parse);
  }

  /**
   * Handed a payload whose macros are all numbers, the service's normalisation gives
   * it back unchanged.
   */
  lemma {:induction false} RequestDataKeepsNumbers(p: DietPayload, parse: Parser)
    requires PayloadMacrosAreNumbers(p)
    ensures RequestData(AsDiet(p), parse) == p
  {
    var q := AsDiet(p);
    var food := (e: FoodEntry) => FoodRequestOf(parse, e);
    var r := BuildPayload(q, parse, Identity, food);
    assert RequestData(q, parse) == r;
    forall i | 0 <= i < |p.meals|
      ensures r.meals[i] == p.meals[i]
    {
      assert r.meals[i] == MealPayloadOf(AsMeal(p.meals[i]), Identity, food);
      MealRoundTrip(parse, food, p.meals[i]);
    }
  }

  /** A meal whose macros are all numbers comes back unchanged through the service's mapping. */
  lemma MealRoundTrip(parse: Parser, food: FoodEntry -> FoodPayload, m: MealPayload)
    requires forall e :: food(e) == FoodRequestOf(parse, e)
    requires forall j :: 0 <= j < |m.foodList| ==> MacrosAreNumbers(m.foodList[j])
    ensures MealPayloadOf(AsMeal(m), Identity, food) == m
  {
    var n := MealPayloadOf(AsMeal(m), Identity, food);
    forall j | 0 <= j < |m.foodList|
      ensures n.foodList[j] == m.foodList[j]
    {
      RowRoundTrip(parse, m.foodList[j]);
    }
  }

  /** A row whose macros are numbers comes back unchanged through the service's row mapping. */
  lemma RowRoundTrip(parse: Parser, f: FoodPayload)
    requires MacrosAreNumbers(f)
    ensures FoodRequestOf(parse, AsEntry(f)) == f
  {
  }
}
