/**
 * An in-memory store of the recipe models: one field per table, updated in
 * place. Every insert first validates the new row the way `full_clean`
 * does (field errors, then the unique checks of the fields that cleaned)
 * and leaves the store untouched when it refuses the row; every delete
 * removes the dependent rows of each table in turn, as the schema's
 * `on_delete=CASCADE` rules ask.
 */
module Store {
  import opened Wrappers
  import opened Constants
  import opened Fields
  import opened ImagePaths
  import opened Schema

  class RecipeStore {
    const limits: Limits
    var ingredients: map<IngredientId, Ingredient>
    var tags: map<TagId, Tag>
    var recipes: map<RecipeId, Recipe>
    var recipeTags: set<(RecipeId, TagId)>
    var recipeIngredients: map<(RecipeId, IngredientId), nat>
    var favorites: set<(UserId, RecipeId)>
    var shoppingCart: set<(UserId, RecipeId)>
    var shortLinks: map<RecipeId, string>
    var nextIngredient: nat
    var nextTag: nat
    var nextRecipe: nat

    /** The whole state as one value. */
    ghost function Rows(): Tables
      reads this
    {
      Tables(ingredients, tags, recipes, recipeTags, recipeIngredients, favorites, shoppingCart,
             shortLinks, nextIngredient, nextTag, nextRecipe)
    }

    ghost predicate Valid()
      reads this
    {
      Consistent(Rows(), limits)
    }

    constructor (limits: Limits)
      ensures Valid() && this.limits == limits && Rows() == EmptyTables()
    {
      this.limits := limits;
      ingredients, tags, recipes := map[], map[], map[];
      recipeTags, recipeIngredients := {}, map[];
      favorites, shoppingCart, shortLinks := {}, {}, map[];
      nextIngredient, nextTag, nextRecipe := 0, 0, 0;
    }

    /** Creates an ingredient under the next id, unless its fields are invalid or its name is taken. */
    method AddIngredient(name: string, measurementUnit: string) returns (result: Result<IngredientId, Error>)
      requires Valid()
      modifies this
      ensures Valid()
      ensures var e := CleanIngredient(old(ingredients), limits, Ingredient(name, measurementUnit));
              if e.Some? then result == Failure(e.value) && Rows() == old(Rows())
              else && result == Success(old(nextIngredient))
                   && old(nextIngredient) !in old(ingredients)
                   && Rows() == old(Rows()).(ingredients := old(ingredients)[old(nextIngredient) := Ingredient(name, measurementUnit)],
                                             nextIngredient := old(nextIngredient) + 1)
    {
      var row := Ingredient(name, measurementUnit);
      var e := CleanIngredient(ingredients, limits, row);
      if e.Some? {
        return Failure(e.value);
      }
      ghost var before := Rows();
      var id := nextIngredient;
      ingredients := ingredients[id := row];
      nextIngredient := id + 1;
      InsertIngredientKeepsConsistent(before, Rows(), limits, row);
      result := Success(id);
    }

    /** Creates a tag under the next id, unless its fields are invalid or its name or slug is taken. */
    method AddTag(name: string, slug: string) returns (result: Result<TagId, Error>)
      requires Valid()
      modifies this
      ensures Valid()
      ensures var e := CleanTag(old(tags), limits, Tag(name, slug));
              if e.Some? then result == Failure(e.value) && Rows() == old(Rows())
              else && result == Success(old(nextTag))
                   && old(nextTag) !in old(tags)
                   && Rows() == old(Rows()).(tags := old(tags)[old(nextTag) := Tag(name, slug)], nextTag := old(nextTag) + 1)
    {
      var row := Tag(name, slug);
      var e := CleanTag(tags, limits, row);
      if e.Some? {
        return Failure(e.value);
      }
      ghost var before := Rows();
      var id := nextTag;
      tags := tags[id := row];
      nextTag := id + 1;
      InsertTagKeepsConsistent(before, Rows(), limits, row);
      result := Success(id);
    }

    /**
     * Creates a recipe under the next id, unless its name, image, text or
     * cooking time is invalid. The image is stored under the path built from the
     * author's username, the recipe name and the uploaded file's extension;
     * `pubDate` is the creation time.
     */
    method AddRecipe(author: UserId, authorUsername: string, name: string, imageFilename: string,
                     text: string, cookingTime: nat, pubDate: int)
      returns (result: Result<RecipeId, Error>)
      requires Valid()
      modifies this
      ensures Valid()
      ensures var e := CleanRecipe(limits, name, imageFilename, text, cookingTime);
              if e.Some? then result == Failure(e.value) && Rows() == old(Rows())
              else && result == Success(old(nextRecipe))
                   && old(nextRecipe) !in old(recipes)
                   && Rows() == old(Rows()).(
                        recipes := old(recipes)[old(nextRecipe) :=
                          Recipe(author, name, ImageDirectoryPath(authorUsername, name, imageFilename), text, cookingTime, pubDate)],
                        nextRecipe := old(nextRecipe) + 1)
    {
      var e := CleanRecipe(limits, name, imageFilename, text, cookingTime);
      if e.Some? {
        return Failure(e.value);
      }
      var row := Recipe(author, name, ImageDirectoryPath(authorUsername, name, imageFilename), text, cookingTime, pubDate);
      ghost var before := Rows();
      var id := nextRecipe;
      recipes := recipes[id := row];
      nextRecipe := id + 1;
      InsertRecipeKeepsConsistent(before, Rows(), limits, row);
      result := Success(id);
    }

    /**
     * Tags a recipe. Both rows must exist; tagging a recipe with a tag it
     * already has succeeds and changes nothing.
     */
    method AddRecipeTag(recipe: RecipeId, tag: TagId) returns (result: Option<Error>)
      requires Valid()
      modifies this
      ensures Valid()
      ensures result.None? <==> recipe in old(recipes) && tag in old(tags)
      ensures result.Some? ==> result.value.violated == [] &&
                               (FieldError(RecipeRef, DoesNotExist) in result.value.fieldErrors <==> recipe !in old(recipes)) &&
                               (FieldError(TagRef, DoesNotExist) in result.value.fieldErrors <==> tag !in old(tags))
      ensures Rows() == if result.Some? then old(Rows()) else old(Rows()).(recipeTags := old(recipeTags) + {(recipe, tag)})
    {
      if recipe !in recipes || tag !in tags {
        var fieldErrors :=
          (if recipe in recipes then [] else [FieldError(RecipeRef, DoesNotExist)])
          + (if tag in tags then [] else [FieldError(TagRef, DoesNotExist)]);
        return Some(Rejected(fieldErrors, []));
      }
      ghost var before := Rows();
      recipeTags := recipeTags + {(recipe, tag)};
      InsertRecipeTagKeepsConsistent(before, Rows(), limits, recipe, tag);
      result := None;
    }

    /** Untags a recipe; only that link goes. */
    method RemoveRecipeTag(recipe: RecipeId, tag: TagId) returns (removed: bool)
      requires Valid()
      modifies this
      ensures Valid()
      ensures removed == ((recipe, tag) in old(recipeTags))
      ensures Rows() == old(Rows()).(recipeTags := old(recipeTags) - {(recipe, tag)})
    {
      removed := (recipe, tag) in recipeTags;
      ghost var before := Rows();
      recipeTags := recipeTags - {(recipe, tag)};
      RemoveLinkRowsKeepsConsistent(before, Rows(), limits);
    }

    /**
     * Adds an ingredient row to a recipe, unless a key is missing, the
     * amount is out of range, or the pair already has a row.
     */
    method AddRecipeIngredient(recipe: RecipeId, ingredient: IngredientId, amount: nat) returns (result: Option<Error>)
      requires Valid()
      modifies this
      ensures Valid()
      ensures result == CleanIngredientRecipe(old(Rows()), limits, recipe, ingredient, amount)
      ensures Rows() == if result.Some? then old(Rows())
                        else old(Rows()).(recipeIngredients := old(recipeIngredients)[(recipe, ingredient) := amount])
    {
      result := CleanIngredientRecipe(Tables(ingredients, tags, recipes, recipeTags, recipeIngredients, favorites,
                                             shoppingCart, shortLinks, nextIngredient, nextTag, nextRecipe),
                                      limits, recipe, ingredient, amount);
      if result.None? {
        ghost var before := Rows();
        recipeIngredients := recipeIngredients[(recipe, ingredient) := amount];
        InsertRecipeIngredientKeepsConsistent(before, Rows(), limits, recipe, ingredient, amount);
      }
    }

    /** Removes the ingredient row of a (recipe, ingredient) pair; only that row goes. */
    method RemoveRecipeIngredient(recipe: RecipeId, ingredient: IngredientId) returns (removed: bool)
      requires Valid()
      modifies this
      ensures Valid()
      ensures removed == ((recipe, ingredient) in old(recipeIngredients))
      ensures Rows() == old(Rows()).(recipeIngredients := old(recipeIngredients) - {(recipe, ingredient)})
    {
      removed := (recipe, ingredient) in recipeIngredients;
      ghost var before := Rows();
      recipeIngredients := recipeIngredients - {(recipe, ingredient)};
      RemoveLinkRowsKeepsConsistent(before, Rows(), limits);
    }

    /** Marks a recipe as a user's favourite, unless the recipe is missing or already a favourite. */
    method AddFavorite(user: UserId, recipe: RecipeId) returns (result: Option<Error>)
      requires Valid()
      modifies this
      ensures Valid()
      ensures result == CleanUserRecipe(old(recipes), old(favorites), UniqueFavourite, user, recipe)
      ensures Rows() == if result.Some? then old(Rows()) else old(Rows()).(favorites := old(favorites) + {(user, recipe)})
    {
      result := CleanUserRecipe(recipes, favorites, UniqueFavourite, user, recipe);
      if result.None? {
        ghost var before := Rows();
        favorites := favorites + {(user, recipe)};
        InsertFavoriteKeepsConsistent(before, Rows(), limits, user, recipe);
      }
    }

    /** Removes one favourite; every other row stays. */
    method RemoveFavorite(user: UserId, recipe: RecipeId) returns (removed: bool)
      requires Valid()
      modifies this
      ensures Valid()
      ensures removed == ((user, recipe) in old(favorites))
      ensures Rows() == old(Rows()).(favorites := old(favorites) - {(user, recipe)})
    {
      removed := (user, recipe) in favorites;
      ghost var before := Rows();
      favorites := favorites - {(user, recipe)};
      RemoveLinkRowsKeepsConsistent(before, Rows(), limits);
    }

    /** Puts a recipe in a user's shopping list, unless the recipe is missing or already there. */
    method AddToShoppingCart(user: UserId, recipe: RecipeId) returns (result: Option<Error>)
      requires Valid()
      modifies this
      ensures Valid()
      ensures result == CleanUserRecipe(old(recipes), old(shoppingCart), UniqueShoppingList, user, recipe)
      ensures Rows() == if result.Some? then old(Rows()) else old(Rows()).(shoppingCart := old(shoppingCart) + {(user, recipe)})
    {
      result := CleanUserRecipe(recipes, shoppingCart, UniqueShoppingList, user, recipe);
      if result.None? {
        ghost var before := Rows();
        shoppingCart := shoppingCart + {(user, recipe)};
        InsertCartEntryKeepsConsistent(before, Rows(), limits, user, recipe);
      }
    }

    /** Takes one recipe out of a user's shopping list; every other row stays. */
    method RemoveFromShoppingCart(user: UserId, recipe: RecipeId) returns (removed: bool)
      requires Valid()
      modifies this
      ensures Valid()
      ensures removed == ((user, recipe) in old(shoppingCart))
      ensures Rows() == old(Rows()).(shoppingCart := old(shoppingCart) - {(user, recipe)})
    {
      removed := (user, recipe) in shoppingCart;
      ghost var before := Rows();
      shoppingCart := shoppingCart - {(user, recipe)};
      RemoveLinkRowsKeepsConsistent(before, Rows(), limits);
    }

    /**
     * Gives a recipe its short link, unless the recipe is missing or already
     * has one, or the link is empty, longer than LENGTH or in use.
     */
    method AddShortLink(recipe: RecipeId, link: string) returns (result: Option<Error>)
      requires Valid()
      modifies this
      ensures Valid()
      ensures result == CleanShortLink(old(Rows()), limits, recipe, link)
      ensures Rows() == if result.Some? then old(Rows()) else old(Rows()).(shortLinks := old(shortLinks)[recipe := link])
    {
      result := CleanShortLink(Tables(ingredients, tags, recipes, recipeTags, recipeIngredients, favorites,
                                      shoppingCart, shortLinks, nextIngredient, nextTag, nextRecipe),
                               limits, recipe, link);
      if result.None? {
        ghost var before := Rows();
        shortLinks := shortLinks[recipe := link];
        InsertShortLinkKeepsConsistent(before, Rows(), limits, recipe, link);
      }
    }

    /**
     * The cascade behind every recipe delete: the recipes in `gone` go, and
     * so do their short links, ingredient rows, tag links, favourites and
     * cart entries. An internal step: `DeleteRecipe` and `DeleteUser` wrap
     * it and restore `Valid()` with the matching lemma.
     */
    method CascadeRecipes(gone: set<RecipeId>)
      modifies this
      ensures Rows() == DeleteRecipesRows(old(Rows()), gone)
    {
      recipes, recipeTags, recipeIngredients, favorites, shoppingCart, shortLinks :=
        recipes - gone,
        DropFirst(recipeTags, gone),
        DropKeysFirst(recipeIngredients, gone),
        DropSecond(favorites, gone),
        DropSecond(shoppingCart, gone),
        shortLinks - gone;
    }

    /** Deletes a recipe: its short link, ingredient rows, tags, favourites and cart entries go first. */
    method DeleteRecipe(recipe: RecipeId) returns (deleted: bool)
      requires Valid()
      modifies this
      ensures Valid()
      ensures deleted == (recipe in old(recipes))
      ensures Rows() == DeleteRecipeRows(old(Rows()), recipe)
    {
      ghost var before := Rows();
      deleted := recipe in recipes;
      CascadeRecipes({recipe});
      DeleteRecipeKeepsConsistent(before, limits, recipe);
    }

    /** Deletes an ingredient and every recipe row that uses it. */
    method DeleteIngredient(ingredient: IngredientId) returns (deleted: bool)
      requires Valid()
      modifies this
      ensures Valid()
      ensures deleted == (ingredient in old(ingredients))
      ensures Rows() == DeleteIngredientRows(old(Rows()), ingredient)
    {
      ghost var before := Rows();
      deleted := ingredient in ingredients;
      recipeIngredients := DropKeysSecond(recipeIngredients, {ingredient});
      ingredients := ingredients - {ingredient};
      assert Rows() == DeleteIngredientRows(before, ingredient);
      DeleteIngredientKeepsConsistent(before, limits, ingredient);
    }

    /** Deletes a tag and its links to recipes. */
    method DeleteTag(tag: TagId) returns (deleted: bool)
      requires Valid()
      modifies this
      ensures Valid()
      ensures deleted == (tag in old(tags))
      ensures Rows() == DeleteTagRows(old(Rows()), tag)
    {
      ghost var before := Rows();
      deleted := tag in tags;
      recipeTags := DropSecond(recipeTags, {tag});
      tags := tags - {tag};
      assert Rows() == DeleteTagRows(before, tag);
      DeleteTagKeepsConsistent(before, limits, tag);
    }

    /**
     * Removes what a deleted user owns: their recipes with every row that
     * refers to them, then their own favourites and cart entries.
     */
    method DeleteUser(user: UserId)
      requires Valid()
      modifies this
      ensures Valid()
      ensures Rows() == DeleteUserRows(old(Rows()), user)
    {
      ghost var before := Rows();
      var gone := AuthoredBy(recipes, user);
      CascadeRecipes(gone);
      DeleteRecipesKeepsConsistent(before, limits, gone);
      ghost var withoutRecipes := Rows();
      favorites, shoppingCart := DropFirst(favorites, {user}), DropFirst(shoppingCart, {user});
      RemoveLinkRowsKeepsConsistent(withoutRecipes, Rows(), limits);
    }
  }
}
