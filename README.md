# Foodgram recipe models in Dafny

This project models the behaviour declared in `backend/recipes/models.py` of the
Foodgram recipe-sharing backend:

* **Image upload path** (`image_directory_path`). The function returns the
  path `recipes/images/<author username>__<recipe name>.<extension>` for an
  uploaded recipe image; the file storage may still adjust that name before
  saving (see "Left out"). The extension is the last piece of
  `filename.split('.')`. `ImagePaths` models
  Python's `str.split` and `'.'.join`, proves that they are mutual inverses,
  and proves what the path looks like.
* **Range validators** on `Recipe.cooking_time` and `IngredientRecipe.amount`.
  Each field has a `MinValueValidator` and a `MaxValueValidator`. Django runs
  them in order and collects every failure (`Validators`). Each error records
  the validator's code, its limit, and what its message claims about the value.
* **Field cleaning** of the declared text columns (`Fields`). A required
  `CharField` rejects blanks and values longer than `max_length`. A `SlugField`
  also runs `validate_slug`, and a required `TextField` rejects blanks.
* **The relational store** (`Schema`, `Store`). The class
  `Store.RecipeStore` has one field per table: ingredients, tags, recipes, the
  recipe–tag link table, the recipe–ingredient table, favourites, shopping-list
  entries and short links, plus the id sequences.
  * Each insert validates the new row the way `full_clean()` does. Field errors
    come first. Then the unique checks run, but only for fields that cleaned.
    A refused row leaves every table unchanged.
  * Each delete also removes the dependent rows of every table, following
    the `on_delete=CASCADE` foreign keys.
  * `Schema.Consistent` is the invariant every public operation keeps.
    `CascadeRecipes` is the internal step that `DeleteRecipe` and
    `DeleteUser` wrap; it states only the new tables, and the wrappers add
    the invariant. It says that ids
    lie below their sequences, that stored values are valid, that unique
    fields are unique, and that every foreign key names an existing row.

The numeric settings from `recipes/constants.py` (the `max_length` values,
`MIN_TIME`, `MAX_TIME`, `MIN_AMOUNT`, `MAX_AMOUNT` and `LENGTH`) are not part of
this model. They are passed in as a `Constants.Limits` value. Users are opaque
ids. `pub_date` is a timestamp argument to `AddRecipe`.

## Model

| member | source | states |
|---|---|---|
| `ImagePaths.Split` | backend/recipes/models.py:39 | `str.split('.')` gives at least one piece, no piece holds the separator, and joining the pieces gives back the filename |
| `ImagePaths.Extension` | backend/recipes/models.py:39 | `filename.split('.')[-1]` is the text after the last `.` of the filename, or the whole filename when it has no `.` |
| `ImagePaths.ImageDirectoryPath` | backend/recipes/models.py:38-41 | the returned path lies under `recipes/images/` and has the same extension as the uploaded filename |
| `ImagePaths.SplitJoin` | backend/recipes/models.py:39 | splitting undoes joining: separator-free pieces come back unchanged from their join |
| `ImagePaths.LastPieceOfJoin` | backend/recipes/models.py:39 | of pieces free of the separator, the last piece is the text after the last separator of their join, or the whole join when there is one piece |
| `ImagePaths.LastPieceIsLastSegment` | backend/recipes/models.py:39 | the element `[-1]` of `s.split(sep)` is the text after the last separator of `s`, or all of `s` when it has none |
| `ImagePaths.ExtensionIsTextAfterLastDot` | backend/recipes/models.py:39 | the extension is the suffix after the last `.`; it never holds a `.`; a filename without `.` is its own extension |
| `ImagePaths.ExtensionOfDottedName` | backend/recipes/models.py:39 | for `base.ext` with a dot-free `ext`, the extension is `ext`, whatever `base` is |
| `ImagePaths.ImagePathLayout` | backend/recipes/models.py:41 | the path starts with `recipes/images/`, then the username, `__`, the recipe name and `.`; the rest is the filename's text after its last `.` |
| `ImagePaths.ImagePathIgnoresBaseName` | backend/recipes/models.py:40-41 | two uploads with the same extension get the same path, `recipes/images/<user>__<name>.<ext>`; the original base name never reaches it |
| `ImagePaths.ImagePathDeterminesExtension` | backend/recipes/models.py:40-41 | for a fixed author and recipe, equal paths mean equal extensions |
| `Validators.RunValidators` | backend/recipes/models.py:66-75 | the value is accepted exactly when every validator passes; every error comes from a failing validator and every failing validator reports |
| `Validators.Check` | backend/recipes/models.py:66-75 | one `MinValueValidator` or `MaxValueValidator` call: it raises exactly when the value fails the bound, and raises its own code, limit and message |
| `Validators.CookingTimeValidatorsAsWritten` | backend/recipes/models.py:66-75 | the declared `cooking_time` validators accept exactly `MIN_TIME..MAX_TIME`; the minimum's message fits its bound, the maximum's does not |
| `Validators.CookingTimeValidators` | backend/recipes/models.py:66-75 | the corrected `cooking_time` validators accept the same range, and both messages fit their bounds |
| `Validators.AmountValidators` | backend/recipes/models.py:126-135 | the `amount` validators accept exactly `MIN_AMOUNT..MAX_AMOUNT`, and both messages fit their bounds |
| `Validators.WellWordedErrorsAreTruthful` | backend/recipes/models.py:126-135 | when each message matches its bound ("not less" for a minimum, "not more" for a maximum), every reported message is true of the value |
| `Validators.CookingTimeErrors` | backend/recipes/models.py:64-76 | a cooking time is accepted exactly when `MIN_TIME <= t <= MAX_TIME`; below the range the minimum reports, above it the maximum; every message is truthful |
| `Validators.CookingTimeErrorsAsWritten` | backend/recipes/models.py:66-75 | with the source's messages, acceptance is still exactly `MIN_TIME <= t <= MAX_TIME` |
| `Validators.CookingTimeMaxMessageMisleading` | backend/recipes/models.py:71-74 | at `t = MAX_TIME + 1` the only error is the maximum's, and its message ("must not be less than MAX_TIME") is false of `t` |
| `Validators.CookingTimeWordingIsTheOnlyDifference` | backend/recipes/models.py:66-75 | for every time, the declared and the corrected validation report the same validators with the same limits in the same order; every declared message says "not less than" |
| `Validators.AmountErrors` | backend/recipes/models.py:124-136 | an amount is accepted exactly when `MIN_AMOUNT <= a <= MAX_AMOUNT`; an out-of-range amount draws the error of the bound it crosses; every message is truthful |
| `Fields.CleanChar` | backend/recipes/models.py:11-14 | a required CharField accepts exactly the non-empty values within `max_length`, and a blank value reports only `Blank` |
| `Fields.CleanSlug` | backend/recipes/models.py:27 | a SlugField accepts exactly the slugs (one or more ASCII letters, digits, `_`, `-`) within `max_length` |
| `Fields.CleanText` | backend/recipes/models.py:52-56 | a required TextField, or the file name of a required ImageField, is accepted exactly when it is not empty |
| `Schema.CleanIngredient` | backend/recipes/models.py:10-14 | a new ingredient is accepted exactly when its fields are valid and its name is free; the name rule is reported only when the name itself cleaned |
| `Schema.CleanTag` | backend/recipes/models.py:25-27 | a new tag is accepted exactly when its fields are valid and both name and slug are free; each rule is reported when its field cleaned and the value is taken |
| `Schema.CleanRecipe` | backend/recipes/models.py:51-76 | a new recipe is accepted exactly when its name, uploaded image name, text and cooking time are valid; a missing image reports `Blank`; an out-of-range time carries the cooking-time errors |
| `Schema.CleanIngredientRecipe` | backend/recipes/models.py:111-147 | a recipe-ingredient row is accepted exactly when both rows exist, the amount is in range and the pair is unlinked; a duplicate pair reports `unique_recipe_ingredients` |
| `Schema.CleanUserRecipe` | backend/recipes/models.py:163-179 | a favourite or shopping-list row is accepted exactly when the recipe exists and the (user, recipe) pair is absent; otherwise the pair's unique rule is reported |
| `Schema.CleanShortLink` | backend/recipes/models.py:88-100 | a short link is accepted exactly when the recipe exists and has none yet, and the link is non-empty, at most `LENGTH` long and unused |
| `Schema.InsertIngredientKeepsConsistent` | backend/recipes/models.py:11-12 | inserting a validated ingredient under the next id keeps ingredient names unique and the schema consistent |
| `Schema.InsertTagKeepsConsistent` | backend/recipes/models.py:26-27 | inserting a validated tag keeps tag names and slugs unique and the schema consistent |
| `Schema.InsertShortLinkKeepsConsistent` | backend/recipes/models.py:89-100 | inserting a validated short link keeps one link per recipe, unique links and the length bound |
| `Schema.InsertIngredientKeepsUnique` | backend/recipes/models.py:11-12 | an ingredient whose name is free, under an unused id, keeps ingredient names unique |
| `Schema.InsertTagKeepsUnique` | backend/recipes/models.py:26-27 | a tag whose name and slug are free, under an unused id, keeps tag names and slugs unique |
| `Schema.InsertShortLinkKeepsUnique` | backend/recipes/models.py:89-99 | a free link for a recipe without one keeps links unique and one per recipe |
| `Schema.InsertRecipeKeepsConsistent` | backend/recipes/models.py:44-76 | inserting a validated recipe under the next id keeps the schema consistent |
| `Schema.InsertRecipeTagKeepsConsistent` | backend/recipes/models.py:63 | linking an existing recipe to an existing tag keeps every reference valid |
| `Schema.InsertRecipeIngredientKeepsConsistent` | backend/recipes/models.py:111-147 | inserting a validated recipe-ingredient row keeps amounts in range, references valid and the schema consistent |
| `Schema.InsertFavoriteKeepsConsistent` | backend/recipes/models.py:156-179 | a favourite of an existing recipe keeps the schema consistent |
| `Schema.InsertCartEntryKeepsConsistent` | backend/recipes/models.py:185-208 | a shopping-list entry for an existing recipe keeps the schema consistent |
| `Schema.RemoveLinkRowsKeepsConsistent` | backend/recipes/models.py:111-208 | removing tag links, recipe-ingredient rows, favourites or shopping-list entries never breaks consistency, since no row refers to them |
| `Schema.DeleteRecipesKeepsConsistent` | backend/recipes/models.py:89-197 | deleting any set of recipes with their dependents leaves no dangling reference |
| `Schema.DeleteRecipesRows` | backend/recipes/models.py:89-197 | definition of the recipe cascade: the recipes go with their tag links, ingredient rows, favourites, cart entries and short links (its properties are the `DeleteRecipe…` lemmas) |
| `Schema.DeleteRecipeRows` | backend/recipes/models.py:89-197 | definition: the recipe cascade for one recipe |
| `Schema.DeleteIngredientRows` | backend/recipes/models.py:118-123 | definition: the ingredient goes with the recipe rows that use it |
| `Schema.DeleteTagRows` | backend/recipes/models.py:63 | definition: the tag goes with its links to recipes |
| `Schema.DeleteUserRows` | backend/recipes/models.py:45-191 | definition: the recipe cascade for every recipe the user wrote, then the user's own favourites and cart entries |
| `Schema.DeleteRecipeKeepsConsistent` | backend/recipes/models.py:89-197 | deleting a recipe with its dependents leaves no dangling reference |
| `Schema.DeleteRecipeCascade` | backend/recipes/models.py:89-197 | deleting a recipe removes it and its short link; every other recipe, every ingredient and tag, and every row of another recipe stays |
| `Schema.DeleteRecipeRemovesOnlyDependents` | backend/recipes/models.py:89-197 | every consistent part of the tables that lacks the recipe survives the delete: the cascade removes only rows that would dangle |
| `Schema.DeleteAbsentRecipeIsNoOp` | backend/recipes/models.py:89-197 | deleting a recipe that does not exist changes nothing |
| `Schema.DeleteIngredientKeepsConsistent` | backend/recipes/models.py:118-123 | deleting an ingredient with its recipe rows leaves no dangling reference |
| `Schema.DeleteIngredientCascade` | backend/recipes/models.py:118-123 | deleting an ingredient removes exactly the ingredient and the rows that use it; all other tables stay |
| `Schema.DeleteTagKeepsConsistent` | backend/recipes/models.py:63 | deleting a tag with its links leaves no dangling reference |
| `Schema.DeleteTagCascade` | backend/recipes/models.py:63 | deleting a tag removes exactly the tag and its links; all other tables stay |
| `Schema.DeleteUserKeepsConsistent` | backend/recipes/models.py:45-191 | deleting a user's rows leaves no dangling reference |
| `Schema.DeleteUserCascade` | backend/recipes/models.py:45-191 | after deleting a user's rows, no recipe, favourite or cart entry belongs to the user; others' recipes and their rows on surviving recipes stay |
| `Schema.DeleteOnlyRecipeOfUser` | backend/recipes/models.py:45-50 | deleting a user whose only row is one recipe equals deleting that recipe |
| `Store.RecipeStore.constructor` | backend/recipes/models.py:10-211 | a new store holds empty tables with every id sequence at 0, and is consistent |
| `Store.RecipeStore.AddIngredient` | backend/recipes/models.py:10-14 | a refused ingredient leaves the store unchanged; an accepted one is stored under a fresh id and nothing else changes; consistency is kept |
| `Store.RecipeStore.AddTag` | backend/recipes/models.py:25-27 | a refused tag leaves the store unchanged; an accepted one is stored under a fresh id and nothing else changes |
| `Store.RecipeStore.AddRecipe` | backend/recipes/models.py:44-77 | a recipe is accepted exactly when `CleanRecipe` accepts it (an image is required); it is stored under a fresh id with its image at `ImageDirectoryPath(username, name, filename)`; a refused one changes nothing |
| `Store.RecipeStore.AddRecipeTag` | backend/recipes/models.py:63 | tagging needs both rows to exist; re-adding an existing link succeeds and changes nothing |
| `Store.RecipeStore.RemoveRecipeTag` | backend/recipes/models.py:63 | removes only that (recipe, tag) link and reports whether it was there |
| `Store.RecipeStore.AddRecipeIngredient` | backend/recipes/models.py:111-147 | the row is added exactly when `CleanIngredientRecipe` accepts it; a duplicate pair is refused and the table is unchanged |
| `Store.RecipeStore.RemoveRecipeIngredient` | backend/recipes/models.py:142-147 | removes only that (recipe, ingredient) row |
| `Store.RecipeStore.AddFavorite` | backend/recipes/models.py:156-179 | adds the (user, recipe) pair exactly when the recipe exists and the pair is absent; otherwise nothing changes |
| `Store.RecipeStore.RemoveFavorite` | backend/recipes/models.py:174-179 | removes only that (user, recipe) pair and reports whether it was there |
| `Store.RecipeStore.AddToShoppingCart` | backend/recipes/models.py:185-208 | adds the (user, recipe) pair exactly when the recipe exists and the pair is absent; otherwise nothing changes |
| `Store.RecipeStore.RemoveFromShoppingCart` | backend/recipes/models.py:203-208 | removes only that (user, recipe) pair and reports whether it was there |
| `Store.RecipeStore.AddShortLink` | backend/recipes/models.py:88-100 | stores the link exactly when `CleanShortLink` accepts it; otherwise nothing changes |
| `Store.RecipeStore.CascadeRecipes` | backend/recipes/models.py:89-197 | the new state is `DeleteRecipesRows` of the old one: the recipes go with their short links, ingredient rows, tag links, favourites and cart entries |
| `Store.RecipeStore.DeleteRecipe` | backend/recipes/models.py:89-197 | the new state is `DeleteRecipeRows` of the old one; consistency is kept |
| `Store.RecipeStore.DeleteIngredient` | backend/recipes/models.py:118-123 | the new state is `DeleteIngredientRows` of the old one; consistency is kept |
| `Store.RecipeStore.DeleteTag` | backend/recipes/models.py:63 | the new state is `DeleteTagRows` of the old one; consistency is kept |
| `Store.RecipeStore.DeleteUser` | backend/recipes/models.py:45-191 | the new state is `DeleteUserRows` of the old one; consistency is kept |

## Findings

| source | as written | input that shows it | evidently intended | confidence | as-written member | corrected member |
|---|---|---|---|---|---|---|
| backend/recipes/models.py:71-74 | the `MaxValueValidator` of `cooking_time` has the message "Время приготовления не должно быть меньше {MAX_TIME}" ("must not be less than MAX_TIME"), copied from the minimum's message | `cooking_time = MAX_TIME + 1` is rejected with a message claiming the time is below `MAX_TIME` | "не должно быть больше" ("must not be more than"), like the `amount` validator at line 133 | high (not executed) | `Validators.CookingTimeErrorsAsWritten`, `Validators.CookingTimeMaxMessageMisleading` | `Validators.CookingTimeErrors` |

The store validates cooking times with the corrected `CookingTimeErrors`. Both
versions accept and reject the same values; only the wording differs
(`Validators.CookingTimeWordingIsTheOnlyDifference`).

## Left out

- Django's database range validators for `PositiveSmallIntegerField` (0 to 32767) are not modelled, because they are added by the framework rather than declared here. The field's values are `nat`, so they cannot be negative.
- Aggregation of errors: when a field fails to clean, the model skips the unique checks that involve that field, as `full_clean()` does. The model does not reproduce the exact dictionary layout of Django's `ValidationError`.
- Validation of the `author` and `user` foreign keys: users are opaque ids, and the users table is not part of this model.
- Schema.CleanRecipe: reports an over-long cooking time with the corrected message ("must not be more than MAX_TIME") rather than the message declared at backend/recipes/models.py:73 ("must not be less than MAX_TIME"), as the Findings table records. `Validators.CookingTimeWordingIsTheOnlyDifference` shows that the two differ only in that wording: the same times are accepted and the same validators report.
- Store.RecipeStore.AddRecipe: stores the path that `image_directory_path` returns, unchanged. The storage's name normalisation is not modelled: `get_valid_name` turns spaces into `_` and drops other characters that are not word characters, `-` or `.`. Neither is renaming on a name clash, the `FileField` `max_length` of 100 on the stored name, nor the check that the upload is an image. The required-image check is modelled only as "the uploaded file name is not empty".
- `pub_date` reads the clock. It is passed to `AddRecipe` as a timestamp argument.
- `Meta.ordering`, verbose names and `__str__` are presentation only and are not modelled.
- How a short link's value is generated is not part of this model. Only the link's uniqueness, its length bound and the one-link-per-recipe rule are modelled.
- Updates of existing rows are not modelled. `save()` on an existing primary key updates the row; the store only inserts and deletes.
- Concurrency and transactions are not modelled: each store method is one atomic step.
- URL routing (`backend/foodgram/foodgram/urls.py`) and the historical migration `backend/recipes/migrations/0004_auto_20241001_1331.py` are framework configuration and are not part of this model.
