/**
 The favorite record kept per (user, meal) pair (Models/Favoritos.cs).
 */
module Favoritos {

  /** One row of the favorites table: the surrogate key `id` generated by the
      store, the owning user's id and the meal's id. */
  datatype Favorite = Favorite(id: int, userId: string, idMeal: string)

  /** `new Favoritos()`: the `int` default for the id (the store replaces it on
      insertion) and the empty string for both string properties. Nothing in
      the model calls it: it records the initializers of lines 15 and 18 of
      Favoritos.cs and nothing more. */
  function NewFavorite(): (f: Favorite)
    ensures f.id == 0
    ensures f.userId == "" && f.idMeal == ""
  {
    Favorite(0, "", "")
  }

  /** Two records denote the same favorite when user and meal agree, whatever
      their ids: the test the controller applies before adding or removing. */
  predicate SameFavorite(a: Favorite, b: Favorite)
  {
    a.userId == b.userId && a.idMeal == b.idMeal
  }
}
