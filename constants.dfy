/**
 * The numeric settings the models read from `recipes/constants.py`.
 * Their values are not part of this model, so every operation that needs
 * one receives them together as a `Limits` value.
 */
module Constants {

  datatype Limits = Limits(
    nameIngredient: nat,  // max_length of Ingredient.name
    measureMax: nat,      // max_length of Ingredient.measurement_unit
    nameTag: nat,         // max_length of Tag.name
    slugTag: nat,         // max_length of Tag.slug
    nameRecipe: nat,      // max_length of Recipe.name
    minTime: nat,         // MinValueValidator limit of Recipe.cooking_time
    maxTime: nat,         // MaxValueValidator limit of Recipe.cooking_time
    minAmount: nat,       // MinValueValidator limit of IngredientRecipe.amount
    maxAmount: nat,       // MaxValueValidator limit of IngredientRecipe.amount
    length: nat           // max_length of ShortLinkConverter.short_link
  )
  {
    /** The ranges the validators describe are not empty. */
    predicate Ordered() {
      minTime <= maxTime && minAmount <= maxAmount
    }
  }
}
