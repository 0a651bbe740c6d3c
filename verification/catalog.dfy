/** The food catalog the diet pages load from the server and look foods up in. */
module Catalog {
  import opened Wrappers
  import Sequences

  /** A catalog food: its macros are given per `servingSize` grams. */
  datatype Food = Food(
    id: int,
    description: string,
    servingSize: real,
    carbohydrates: real,
    protein: real,
    totalFat: real,
    calories: real)

  /**
   * `foods.find(f => f.description === description)`: the first catalog food whose
   * description is exactly the given text, or nothing when none is.
   */
  function FindByDescription(foods: seq<Food>, description: string): (r: Option<Food>)
    ensures r.Some? ==> r.value in foods && r.value.description == description
    ensures r.None? <==> forall i :: 0 <= i < |foods| ==> foods[i].description != description
    ensures forall i :: 0 <= i < |foods| && foods[i].description == description
                        && (forall j :: 0 <= j < i ==> foods[j].description != description)
                        ==> r == Some(foods[i])
  {
    match Sequences.FindIndex(foods, (f: Food) => f.description == description)
    case Some(i) => Some(foods[i])
    case None => None
  }
}
