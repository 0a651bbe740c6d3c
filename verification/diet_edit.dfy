/**
 * The "edit diet" page: its food-row handler scales the catalog macros by the
 * ratio of the portion to the catalog serving size, rejects a portion that is NaN
 * or negative, and rounds to hundredths; its payload rounds portions to whole
 * numbers and sends the macros through `Number` with no default.
 */
module DietEdit {
  import opened Wrappers
  import opened JsValues
  import opened JsStrings
  import opened Catalog
  import opened DietState
  import DietCreate

  /** A catalog macro for a portion: `(macro * (portion / servingSize)).toFixed(2)`. */
  function ScaleMacro(macro: real, portion: Num, servingSize: real): Num {
    ToFixed2(Mul(Fin(macro), Div(portion, Fin(servingSize))))
  }

  /**
   * The portions the handler turns away, `isNaN(portion) || portion < 0`: NaN and
   * every negative number, -Infinity included. What it accepts is exactly the
   * non-negative numbers and +Infinity.
   */
  function Rejected(p: Num): (r: bool)
    ensures !r <==> p == Inf(false) || (p.Fin? && p.v >= 0.0)
  {
    match p
    case NaN => true
    case Fin(v) => v < 0.0
    case Inf(negative) => negative
  }

  /**
   * The food-row handler of the page for one row. Choosing a catalog food sets the
   * portion to the food's serving size and copies its macros; a new portion for a
   * catalog food leaves the row untouched when it is NaN or negative and otherwise
   * scales every macro by portion / servingSize, rounded to hundredths; any other
   * change, and any change whose description is not in the catalog, stores the text.
   */
  function ChangeFood(foods: seq<Food>, parse: Parser, e: FoodEntry, field: FoodField, value: string)
    : (r: FoodEntry)
    ensures field == FoodDescription && FindByDescription(foods, value).Some? ==>
      var c := FindByDescription(foods, value).value;
      && r.foodDescription == value && r.portion == N(Fin(c.servingSize))
      && DietCreate.HasMacros(r, Fin(c.carbohydrates), Fin(c.protein), Fin(c.totalFat), Fin(c.calories))
    ensures field == Portion && FindByDescription(foods, e.foodDescription).Some? ==>
      var c := FindByDescription(foods, e.foodDescription).value;
      var p := ToNumber(parse, Str(value));
      if Rejected(p) then r == e
      else
        && r.foodDescription == e.foodDescription && r.portion == N(p)
        && DietCreate.HasMacros(r, ScaleMacro(c.carbohydrates, p, c.servingSize),
                                   ScaleMacro(c.protein, p, c.servingSize),
                                   ScaleMacro(c.totalFat, p, c.servingSize),
                                   ScaleMacro(c.calories, p, c.servingSize))
    ensures (!(field == FoodDescription && FindByDescription(foods, value).Some?)
             && !(field == Portion && FindByDescription(foods, e.foodDescription).Some?)) ==>
      r == SetFoodField(e, field, value)
  {
    match field
    case FoodDescription =>
      (match FindByDescription(foods, value)
       case Some(c) =>
         e.(foodDescription := value, portion := N(Fin(c.servingSize)),
            carbohydrates := N(Fin(c.carbohydrates)), protein := N(Fin(c.protein)),
            totalFat := N(Fin(c.totalFat)), calories := N(Fin(c.calories)))
       case None => SetFoodField(e, field, value))
    case Portion =>
      (match FindByDescription(foods, e.foodDescription)
       case Some(c) =>
         var p := ToNumber(parse, Str(value));
         if Rejected(p) then e
         else
           var ratio := Div(p, Fin(c.servingSize));
           e.(portion := N(p),
              carbohydrates := N(ToFixed2(Mul(Fin(c.carbohydrates), ratio))),
              protein := N(ToFixed2(Mul(Fin(c.protein), ratio))),
              totalFat := N(ToFixed2(Mul(Fin(c.totalFat), ratio))),
              calories := N(ToFixed2(Mul(Fin(c.calories), ratio))))
       case None => SetFoodField(e, field, value))
    case _ => SetFoodField(e, field, value)
  }

  /** The handler on the whole diet: only row `foodIndex` of meal `mealIndex` changes. */
  function HandleFoodChange(d: Diet, foods: seq<Food>, parse: Parser, mealIndex: int, foodIndex: int,
                            field: FoodField, value: string): (r: Diet)
    ensures SameHeader(d, r) && |r.meals| == |d.meals|
    ensures forall k :: 0 <= k < |d.meals| ==>
      SameMealHeader(d.meals[k], r.meals[k]) && |r.meals[k].foodList| == |d.meals[k].foodList|
    ensures forall k, j :: 0 <= k < |d.meals| && 0 <= j < |d.meals[k].foodList| ==>
      r.meals[k].foodList[j] == (if k == mealIndex && j == foodIndex
                                 then ChangeFood(foods, parse, d.meals[k].foodList[j], field, value)
                                 else d.meals[k].foodList[j])
  {
    UpdateFood(d, mealIndex, foodIndex, (e: FoodEntry) => ChangeFood(foods, parse, e, field, value))
  }

  /** A portion that does not parse, or parses to a negative number, leaves the row as it was. */
  lemma InvalidPortionLeavesRow(foods: seq<Food>, parse: Parser, e: FoodEntry, value: string)
    requires parse(value).None? || parse(value).value < 0.0
    ensures ChangeFood(foods, parse, e, Portion, value) == e
           || FindByDescription(foods, e.foodDescription).None?
  {
  }

  /**
   * A scaled macro is the exact value `macro * (portion / servingSize)` rounded to
   * hundredths, and so is within half a hundredth of it.
   */
  lemma ScaleMacroIsRoundedRatio(macro: real, p: real, servingSize: real)
    requires servingSize != 0.0
    ensures ScaleMacro(macro, Fin(p), servingSize) == Fin(Round2(macro * (p / servingSize)))
    ensures -0.005 <= ScaleMacro(macro, Fin(p), servingSize).v - macro * (p / servingSize) <= 0.005
  {
    ScaleMacroUnfold(macro, p, servingSize);
  }

  lemma ScaleMacroUnfold(macro: real, p: real, servingSize: real)
    requires servingSize != 0.0
    ensures ScaleMacro(macro, Fin(p), servingSize) == Fin(Round2(macro * (p / servingSize)))
  {
    assert Div(Fin(p), Fin(servingSize)) == Fin(p / servingSize);
    assert Mul(Fin(macro), Fin(p / servingSize)) == Fin(macro * (p / servingSize));
  }

  /**
   * A portion `p >= 0` of a catalog food is accepted: it is stored, and every macro
   * becomes the catalog value scaled by `p / servingSize` (see `ScaleMacroIsRoundedRatio`).
   */
  lemma PortionScalesByRatio(foods: seq<Food>, parse: Parser, e: FoodEntry, value: string, c: Food, p: real)
    requires FindByDescription(foods, e.foodDescription) == Some(c)
    requires parse(value) == Some(p) && p >= 0.0
    ensures var r := ChangeFood(foods, parse, e, Portion, value);
      && r.portion == N(Fin(p))
      && DietCreate.HasMacros(r, ScaleMacro(c.carbohydrates, Fin(p), c.servingSize),
                                 ScaleMacro(c.protein, Fin(p), c.servingSize),
                                 ScaleMacro(c.totalFat, Fin(p), c.servingSize),
                                 ScaleMacro(c.calories, Fin(p), c.servingSize))
  {
    assert ToNumber(parse, Str(value)) == Fin(p);
    assert !Rejected(Fin(p));
  }

  /** A zero portion of a food with a non-zero serving size scales a macro to 0. */
  lemma ScaleMacroAtZero(macro: real, servingSize: real)
    requires servingSize != 0.0
    ensures ScaleMacro(macro, Fin(0.0), servingSize) == Fin(0.0)
  {
    ScaleMacroUnfold(macro, 0.0, servingSize);
    assert macro * (0.0 / servingSize) == 0.0;
    Round2OfCents(0.0);
  }

  /** The serving size itself scales a macro to the macro rounded to hundredths. */
  lemma ScaleMacroAtServingSize(macro: real, servingSize: real)
    requires servingSize != 0.0
    ensures ScaleMacro(macro, Fin(servingSize), servingSize) == Fin(Round2(macro))
  {
    ScaleMacroUnfold(macro, servingSize, servingSize);
    assert servingSize / servingSize == 1.0;
  }

  /** With a serving size of 1 the ratio rule is the direct product, rounded to hundredths. */
  lemma ScaleMacroAtUnitServing(macro: real, p: real)
    ensures ScaleMacro(macro, Fin(p), 1.0) == Fin(Round2(macro * p))
  {
    assert Div(Fin(p), Fin(1.0)) == Fin(p);
    assert Mul(Fin(macro), Fin(p)) == Fin(macro * p);
  }

  /** A zero serving size never scales a macro to a finite number. */
  lemma ScaleMacroAtZeroServing(macro: real, p: real)
    requires p >= 0.0
    ensures !ScaleMacro(macro, Fin(p), 0.0).Fin?
  {
  }

  /** A zero portion is accepted and zeroes every macro. */
  lemma ZeroPortionZeroesMacros(foods: seq<Food>, parse: Parser, e: FoodEntry, value: string, c: Food)
    requires FindByDescription(foods, e.foodDescription) == Some(c)
    requires parse(value) == Some(0.0) && c.servingSize != 0.0
    ensures var r := ChangeFood(foods, parse, e, Portion, value);
      r.portion == N(Fin(0.0)) && DietCreate.HasMacros(r, Fin(0.0), Fin(0.0), Fin(0.0), Fin(0.0))
  {
    PortionScalesByRatio(foods, parse, e, value, c, 0.0);
    ScaleMacroAtZero(c.carbohydrates, c.servingSize);
    ScaleMacroAtZero(c.protein, c.servingSize);
    ScaleMacroAtZero(c.totalFat, c.servingSize);
    ScaleMacroAtZero(c.calories, c.servingSize);
  }

  /**
   * Typing back the serving size gives the catalog macros rounded to hundredths, and
   * exactly the catalog macros when those are whole hundredths: the row the selection set.
   */
  lemma ServingSizePortionRestoresCatalog(foods: seq<Food>, parse: Parser, e: FoodEntry, value: string, c: Food)
    requires FindByDescription(foods, e.foodDescription) == Some(c)
    requires parse(value) == Some(c.servingSize) && c.servingSize > 0.0
    ensures var r := ChangeFood(foods, parse, e, Portion, value);
      DietCreate.HasMacros(r, Fin(Round2(c.carbohydrates)), Fin(Round2(c.protein)),
                              Fin(Round2(c.totalFat)), Fin(Round2(c.calories)))
    ensures IsCents(c.carbohydrates) && IsCents(c.protein) && IsCents(c.totalFat) && IsCents(c.calories) ==>
      var r := ChangeFood(foods, parse, e, Portion, value);
      DietCreate.HasMacros(r, Fin(c.carbohydrates), Fin(c.protein), Fin(c.totalFat), Fin(c.calories))
  {
    PortionScalesByRatio(foods, parse, e, value, c, c.servingSize);
    ScaleMacroAtServingSize(c.carbohydrates, c.servingSize);
    ScaleMacroAtServingSize(c.protein, c.servingSize);
    ScaleMacroAtServingSize(c.totalFat, c.servingSize);
    ScaleMacroAtServingSize(c.calories, c.servingSize);
    if IsCents(c.carbohydrates) && IsCents(c.protein) && IsCents(c.totalFat) && IsCents(c.calories) {
      Round2OfCents(c.carbohydrates);
      Round2OfCents(c.protein);
      Round2OfCents(c.totalFat);
      Round2OfCents(c.calories);
    }
  }

  /** With a zero serving size no macro comes out as a finite number. */
  lemma ZeroServingSizeIsNotFinite(foods: seq<Food>, parse: Parser, e: FoodEntry, value: string, c: Food)
    requires FindByDescription(foods, e.foodDescription) == Some(c)
    requires parse(value).Some? && parse(value).value >= 0.0 && c.servingSize == 0.0
    ensures var r := ChangeFood(foods, parse, e, Portion, value);
      !r.carbohydrates.n.Fin? && !r.protein.n.Fin? && !r.totalFat.n.Fin? && !r.calories.n.Fin?
  {
    var p := parse(value).value;
    PortionScalesByRatio(foods, parse, e, value, c, p);
    ScaleMacroAtZeroServing(c.carbohydrates, p);
    ScaleMacroAtZeroServing(c.protein, p);
    ScaleMacroAtZeroServing(c.totalFat, p);
    ScaleMacroAtZeroServing(c.calories, p);
  }

  /**
   * The two pages' scaling rules agree only where the catalog serving size is 1 and
   * the products are whole hundredths: then the direct multiplication of the "new
   * diet" page and the ratio of this page give the same row.
   */
  lemma ScalingRulesAgreeAtUnitServing(foods: seq<Food>, parse: Parser, e: FoodEntry, value: string, c: Food, p: real)
    requires FindByDescription(foods, e.foodDescription) == Some(c)
    requires parse(value) == Some(p) && p >= 0.0 && c.servingSize == 1.0
    requires IsCents(c.carbohydrates * p) && IsCents(c.protein * p)
    requires IsCents(c.totalFat * p) && IsCents(c.calories * p)
    ensures ChangeFood(foods, parse, e, Portion, value) == DietCreate.ChangeFood(foods, parse, e, Portion, value)
  {
    PortionScalesByRatio(foods, parse, e, value, c, p);
    DietCreate.PortionScalesDirectly(foods, parse, e, value, c, p);
    ScaleMacroAtUnitServing(c.carbohydrates, p);
    ScaleMacroAtUnitServing(c.protein, p);
    ScaleMacroAtUnitServing(c.totalFat, p);
    ScaleMacroAtUnitServing(c.calories, p);
    Round2OfCents(c.carbohydrates * p);
    Round2OfCents(c.protein * p);
    Round2OfCents(c.totalFat * p);
    Round2OfCents(c.calories * p);
  }

  /** The row as the page submits it: descriptions trimmed, `Math.round` on the portion, `Number` on the macros. */
  function FoodPayloadOf(parse: Parser, e: FoodEntry): FoodPayload {
    FoodPayload(Trim(e.foodDescription), MathRound(ToNumber(parse, e.portion)),
                ToNumber(parse, e.carbohydrates), ToNumber(parse, e.protein),
                ToNumber(parse, e.totalFat), ToNumber(parse, e.calories))
  }

  /** A whole number, or not a finite number at all. */
  predicate WholeOrNonFinite(n: Num) {
    n.Fin? ==> n.v.Floor as real == n.v
  }

  /**
   * The payload of the page: weight, height and tdeee go through `Number`, meals and
   * rows keep their number and order, every description is trimmed, each portion is
   * the nearest whole number to `Number(portion)` (NaN and the infinities pass
   * through), and the macros are `Number(x)` with NaN passed through.
   */
  function Payload(d: Diet, parse: Parser): (r: DietPayload)
    ensures r.description == Trim(d.description)
    ensures r.weight == ToNumber(parse, d.weight)
    ensures r.height == ToNumber(parse, d.height)
    ensures r.tdeee == ToNumber(parse, d.tdeee)
    ensures |r.meals| == |d.meals|
    ensures forall i :: 0 <= i < |d.meals| ==>
      && r.meals[i].description == Trim(d.meals[i].description)
      && r.meals[i].time == d.meals[i].time
      && r.meals[i].ordination == d.meals[i].ordination
      && |r.meals[i].foodList| == |d.meals[i].foodList|
    ensures forall i, j :: 0 <= i < |d.meals| && 0 <= j < |d.meals[i].foodList| ==>
      var e, f := d.meals[i].foodList[j], r.meals[i].foodList[j];
      && f.foodDescription == Trim(e.foodDescription)
      && f.portion == MathRound(ToNumber(parse, e.portion))
      && WholeOrNonFinite(f.portion)
      && (f.portion.Fin? <==> ToNumber(parse, e.portion).Fin?)
      && (f.portion.Fin? ==> -0.5 < f.portion.v - ToNumber(parse, e.portion).v <= 0.5)
      && f.carbohydrates == ToNumber(parse, e.carbohydrates)
      && f.protein == ToNumber(parse, e.protein)
      && f.totalFat == ToNumber(parse, e.totalFat)
      && f.calories == ToNumber(parse, e.calories)
  {
    var r := BuildPayload(d, parse, Trim, (e: FoodEntry) => FoodPayloadOf(parse, e));
    PayloadFacts(d, parse, r);
    r
  }

  lemma PayloadFacts(d: Diet, parse: Parser, r: DietPayload)
    requires r == BuildPayload(d, parse, Trim, (e: FoodEntry) => FoodPayloadOf(parse, e))
    ensures forall i, j :: 0 <= i < |d.meals| && 0 <= j < |d.meals[i].foodList| ==>
      var e, f := d.meals[i].foodList[j], r.meals[i].foodList[j];
      && f.foodDescription == Trim(e.foodDescription)
      && f.portion == MathRound(ToNumber(parse, e.portion))
      && WholeOrNonFinite(f.portion)
      && (f.portion.Fin? <==> ToNumber(parse, e.portion).Fin?)
      && (f.portion.Fin? ==> -0.5 < f.portion.v - ToNumber(parse, e.portion).v <= 0.5)
      && f.carbohydrates == ToNumber(parse, e.carbohydrates)
      && f.protein == ToNumber(parse, e.protein)
      && f.totalFat == ToNumber(parse, e.totalFat)
      && f.calories == ToNumber(parse, e.calories)
  {
  }

  /**
   * The two payload builders differ on a macro that is not a number: this page sends
   * NaN where the "new diet" page sends 0.
   */
  lemma PayloadsDifferOnUnparsableMacro(d: Diet, parse: Parser, i: int, j: int)
    requires 0 <= i < |d.meals| && 0 <= j < |d.meals[i].foodList|
    requires d.meals[i].foodList[j].calories.Str? && parse(d.meals[i].foodList[j].calories.s).None?
    ensures Payload(d, parse).meals[i].foodList[j].calories == NaN
    ensures DietCreate.Payload(d, parse).meals[i].foodList[j].calories == Fin(0.0)
  {
  }

  /** The submit handler: the same gate as the "new diet" page, then this page's payload. */
  function Submit(d: Diet, parse: Parser): (r: Result<DietPayload, SubmitError>)
    ensures r.Success? <==> Submittable(d)
    ensures r.Failure? ==> CheckDiet(d) == Some(r.error)
    ensures r.Success? ==> r.value == Payload(d, parse) && |r.value.meals| > 0
  {
    match CheckDiet(d)
    case Some(err) => Failure(err)
    case None => Success(Payload(d, parse))
  }
}
