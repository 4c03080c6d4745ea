/** The meal record and `extend_meals` as the program declares them: the
    extender of module `Extender` applied to meals, with the division by an
    empty list's length surfacing as a panic instead of being excluded. */
module MealPlanner {
  import Extender

  /** An unsigned 8-bit integer, the width of `tolerance_days`. */
  type U8 = x: int | 0 <= x < 256

  /** A meal: a display name and the number of days it may go unserved.
      The extender copies meals without reading either field. */
  datatype Meal = Meal(name: string, toleranceDays: U8)

  /** Why a call ended in a panic rather than a result. */
  datatype Panic = DivisionByZero

  /** A call either returns a value or panics. */
  datatype Outcome<T> = Returned(value: T) | Panicked(panic: Panic)

  /** `extend_meals(meals, destination_size)`. An empty list panics, because
      both the whole-repetition count and the remainder divide by its
      length. Otherwise element `i` of the result is meal `i % |meals|`, the
      input stays in front unchanged, and the result has
      `destination_size` elements, or `|meals| + destination_size` when the
      destination is shorter than the input. */
  function ExtendMeals(meals: seq<Meal>, destinationSize: nat): (r: Outcome<seq<Meal>>)
    ensures r.Panicked? <==> |meals| == 0
    ensures r.Panicked? ==> r.panic == DivisionByZero
    ensures r.Returned? ==>
      && (destinationSize >= |meals| ==> |r.value| == destinationSize)
      && (destinationSize < |meals| ==> |r.value| == |meals| + destinationSize)
      && |meals| <= |r.value|
      && r.value[..|meals|] == meals
      && forall i :: 0 <= i < |r.value| ==> r.value[i] == meals[i % |meals|]
  {
    if |meals| == 0 then Panicked(DivisionByZero)
    else Returned(Extender.Extend(meals, destinationSize))
  }
}
