/**
 * The relational state the models declare, as one value: a table per
 * model, the id sequences of the tables with auto-increment keys, the
 * consistency the schema's constraints keep, the validation a new row goes
 * through (field cleaning, then the unique checks of the fields that
 * cleaned), and what `on_delete=CASCADE` removes.
 *
 * Link tables are keyed by the pair their unique constraint names, so a
 * key stands for the one row the constraint allows.
 */
module Schema {
  import opened Wrappers
  import opened Constants
  import opened Validators
  import opened Fields

  type UserId = nat
  type IngredientId = nat
  type TagId = nat
  type RecipeId = nat

  datatype Ingredient = Ingredient(name: string, measurementUnit: string)

  datatype Tag = Tag(name: string, slug: string)

  /** A recipe row; `image` is the stored upload path and `pubDate` the creation timestamp. */
  datatype Recipe = Recipe(author: UserId, name: string, image: string, text: string, cookingTime: nat, pubDate: int)

  /** The uniqueness rules of the schema, one per unique field or constraint. */
  datatype Constraint =
    | UniqueIngredientName      // Ingredient.name unique=True
    | UniqueTagName             // Tag.name unique=True
    | UniqueTagSlug             // Tag.slug unique=True
    | UniqueRecipeIngredients   // unique_recipe_ingredients
    | UniqueFavourite           // unique_favourite
    | UniqueShoppingList        // unique_shopping_list
    | ShortLinkPerRecipe        // ShortLinkConverter.recipe primary_key=True
    | UniqueShortLink           // ShortLinkConverter.short_link unique=True

  /** Why a row was refused: the field errors and the uniqueness rules it breaks. */
  datatype Error = Rejected(fieldErrors: seq<FieldError>, violated: seq<Constraint>)

  datatype Tables = Tables(
    ingredients: map<IngredientId, Ingredient>,
    tags: map<TagId, Tag>,
    recipes: map<RecipeId, Recipe>,
    recipeTags: set<(RecipeId, TagId)>,
    recipeIngredients: map<(RecipeId, IngredientId), nat>,
    favorites: set<(UserId, RecipeId)>,
    shoppingCart: set<(UserId, RecipeId)>,
    shortLinks: map<RecipeId, string>,
    nextIngredient: nat,
    nextTag: nat,
    nextRecipe: nat
  )

  function EmptyTables(): Tables {
    Tables(map[], map[], map[], {}, map[], {}, {}, map[], 0, 0, 0)
  }

  // ----- what a stored row satisfies -----

  predicate IngredientFieldsValid(x: Ingredient, lim: Limits) {
    0 < |x.name| <= lim.nameIngredient && 0 < |x.measurementUnit| <= lim.measureMax
  }

  predicate TagFieldsValid(x: Tag, lim: Limits) {
    0 < |x.name| <= lim.nameTag && IsSlug(x.slug) && |x.slug| <= lim.slugTag
  }

  predicate RecipeFieldsValid(x: Recipe, lim: Limits) {
    0 < |x.name| <= lim.nameRecipe && 0 < |x.text| && lim.minTime <= x.cookingTime <= lim.maxTime
  }

  predicate AmountValid(amount: nat, lim: Limits) {
    lim.minAmount <= amount <= lim.maxAmount
  }

  predicate ShortLinkValid(link: string, lim: Limits) {
    0 < |link| <= lim.length
  }

  predicate IngredientNameTaken(ingredients: map<IngredientId, Ingredient>, name: string) {
    exists i :: i in ingredients && ingredients[i].name == name
  }

  predicate TagNameTaken(tags: map<TagId, Tag>, name: string) {
    exists i :: i in tags && tags[i].name == name
  }

  predicate TagSlugTaken(tags: map<TagId, Tag>, slug: string) {
    exists i :: i in tags && tags[i].slug == slug
  }

  predicate ShortLinkTaken(shortLinks: map<RecipeId, string>, link: string) {
    exists r :: r in shortLinks && shortLinks[r] == link
  }

  // ----- the consistency the schema keeps -----

  /** Every key lies below its table's id sequence, so the next id is fresh. */
  ghost predicate IdsBelowSequences(t: Tables) {
    && (forall i :: i in t.ingredients ==> i < t.nextIngredient)
    && (forall i :: i in t.tags ==> i < t.nextTag)
    && (forall r :: r in t.recipes ==> r < t.nextRecipe)
  }

  /** Every stored value passed its field cleaning. */
  ghost predicate RowsValid(t: Tables, lim: Limits) {
    && (forall i :: i in t.ingredients ==> IngredientFieldsValid(t.ingredients[i], lim))
    && (forall i :: i in t.tags ==> TagFieldsValid(t.tags[i], lim))
    && (forall r :: r in t.recipes ==> RecipeFieldsValid(t.recipes[r], lim))
    && (forall k :: k in t.recipeIngredients ==> AmountValid(t.recipeIngredients[k], lim))
    && (forall r :: r in t.shortLinks ==> ShortLinkValid(t.shortLinks[r], lim))
  }

  /** Unique fields: no two rows share an ingredient name, a tag name, a tag slug or a short link. */
  ghost predicate UniqueValues(t: Tables) {
    && (forall i, j :: i in t.ingredients && j in t.ingredients && t.ingredients[i].name == t.ingredients[j].name ==> i == j)
    && (forall i, j :: i in t.tags && j in t.tags && t.tags[i].name == t.tags[j].name ==> i == j)
    && (forall i, j :: i in t.tags && j in t.tags && t.tags[i].slug == t.tags[j].slug ==> i == j)
    && (forall r, s :: r in t.shortLinks && s in t.shortLinks && t.shortLinks[r] == t.shortLinks[s] ==> r == s)
  }

  /** Every foreign key names an existing row. */
  ghost predicate ReferencesExist(t: Tables) {
    && (forall p :: p in t.recipeTags ==> p.0 in t.recipes && p.1 in t.tags)
    && (forall k :: k in t.recipeIngredients ==> k.0 in t.recipes && k.1 in t.ingredients)
    && (forall p :: p in t.favorites ==> p.1 in t.recipes)
    && (forall p :: p in t.shoppingCart ==> p.1 in t.recipes)
    && (forall r :: r in t.shortLinks ==> r in t.recipes)
  }

  ghost predicate Consistent(t: Tables, lim: Limits) {
    IdsBelowSequences(t) && RowsValid(t, lim) && UniqueValues(t) && ReferencesExist(t)
  }

  /** `a` is `b` with some rows removed and the same id sequences. */
  ghost predicate SubTables(a: Tables, b: Tables) {
    && a.ingredients.Items <= b.ingredients.Items
    && a.tags.Items <= b.tags.Items
    && a.recipes.Items <= b.recipes.Items
    && a.recipeTags <= b.recipeTags
    && a.recipeIngredients.Items <= b.recipeIngredients.Items
    && a.favorites <= b.favorites
    && a.shoppingCart <= b.shoppingCart
    && a.shortLinks.Items <= b.shortLinks.Items
    && a.nextIngredient == b.nextIngredient
    && a.nextTag == b.nextTag
    && a.nextRecipe == b.nextRecipe
  }

  lemma EmptyTablesConsistent(lim: Limits)
    ensures Consistent(EmptyTables(), lim)
  {
  }

  // ----- validation of a new row -----

  /**
   * Validation of a new ingredient: accepted exactly when its fields are
   * valid and its name is free. The name's uniqueness is checked only when
   * the name itself cleaned.
   */
  function CleanIngredient(ingredients: map<IngredientId, Ingredient>, lim: Limits, x: Ingredient): (e: Option<Error>)
    ensures e.None? <==> IngredientFieldsValid(x, lim) && !IngredientNameTaken(ingredients, x.name)
    ensures e.Some? ==> (e.value.fieldErrors == [] <==> IngredientFieldsValid(x, lim))
    ensures e.Some? ==> (e.value.violated == [UniqueIngredientName]
                         <==> 0 < |x.name| <= lim.nameIngredient && IngredientNameTaken(ingredients, x.name))
  {
    var nameErrors := CleanChar(IngredientName, x.name, lim.nameIngredient);
    var fieldErrors := nameErrors + CleanChar(MeasurementUnit, x.measurementUnit, lim.measureMax);
    var violated := if nameErrors == [] && IngredientNameTaken(ingredients, x.name) then [UniqueIngredientName] else [];
    if fieldErrors == [] && violated == [] then None else Some(Rejected(fieldErrors, violated))
  }

  /**
   * Validation of a new tag: accepted exactly when its fields are valid and
   * both its name and its slug are free; each uniqueness rule is reported
   * when its field cleaned and the value is taken.
   */
  function CleanTag(tags: map<TagId, Tag>, lim: Limits, x: Tag): (e: Option<Error>)
    ensures e.None? <==> TagFieldsValid(x, lim) && !TagNameTaken(tags, x.name) && !TagSlugTaken(tags, x.slug)
    ensures e.Some? ==> (e.value.fieldErrors == [] <==> TagFieldsValid(x, lim))
    ensures e.Some? ==> (UniqueTagName in e.value.violated <==> 0 < |x.name| <= lim.nameTag && TagNameTaken(tags, x.name))
    ensures e.Some? ==> (UniqueTagSlug in e.value.violated
                         <==> IsSlug(x.slug) && |x.slug| <= lim.slugTag && TagSlugTaken(tags, x.slug))
  {
    var nameErrors := CleanChar(TagName, x.name, lim.nameTag);
    var slugErrors := CleanSlug(TagSlug, x.slug, lim.slugTag);
    var violated :=
      (if nameErrors == [] && TagNameTaken(tags, x.name) then [UniqueTagName] else [])
      + (if slugErrors == [] && TagSlugTaken(tags, x.slug) then [UniqueTagSlug] else []);
    if nameErrors + slugErrors == [] && violated == [] then None
    else Some(Rejected(nameErrors + slugErrors, violated))
  }

  /**
   * Validation of a new recipe, field by field in declaration order: the
   * name, the uploaded image's file name (required), the text and the cooking
   * time. Accepted exactly when all four are valid.
   */
  function CleanRecipe(lim: Limits, name: string, imageFilename: string, text: string, cookingTime: nat): (e: Option<Error>)
    ensures e.None? <==> && 0 < |name| <= lim.nameRecipe && 0 < |imageFilename| && 0 < |text|
                         && lim.minTime <= cookingTime <= lim.maxTime
    ensures e.Some? && imageFilename == [] ==> FieldError(RecipeImage, Blank) in e.value.fieldErrors
    ensures e.Some? ==> e.value.violated == []
    ensures e.Some? && !(lim.minTime <= cookingTime <= lim.maxTime)
            ==> FieldError(CookingTime, OutOfRange(CookingTimeErrors(cookingTime, lim))) in e.value.fieldErrors
  {
    var fieldErrors :=
      CleanChar(RecipeName, name, lim.nameRecipe)
      + CleanText(RecipeImage, imageFilename)
      + CleanText(RecipeText, text)
      + CleanRange(CookingTime, CookingTimeErrors(cookingTime, lim));
    if fieldErrors == [] then None else Some(Rejected(fieldErrors, []))
  }

  /**
   * Validation of a new recipe-ingredient row: accepted exactly when the
   * recipe and the ingredient exist, the amount is in range and the pair is
   * not yet linked; the pair's constraint is checked only when both keys
   * cleaned.
   */
  function CleanIngredientRecipe(t: Tables, lim: Limits, recipe: RecipeId, ingredient: IngredientId, amount: nat): (e: Option<Error>)
    ensures e.None? <==> && recipe in t.recipes && ingredient in t.ingredients && AmountValid(amount, lim)
                         && (recipe, ingredient) !in t.recipeIngredients
    ensures e.Some? ==> (e.value.violated == [UniqueRecipeIngredients]
                         <==> recipe in t.recipes && ingredient in t.ingredients && (recipe, ingredient) in t.recipeIngredients)
    ensures e.Some? ==> (FieldError(Amount, OutOfRange(AmountErrors(amount, lim))) in e.value.fieldErrors
                         <==> !AmountValid(amount, lim))
  {
    var keysOk := recipe in t.recipes && ingredient in t.ingredients;
    var fieldErrors :=
      (if recipe in t.recipes then [] else [FieldError(RecipeRef, DoesNotExist)])
      + (if ingredient in t.ingredients then [] else [FieldError(IngredientRef, DoesNotExist)])
      + CleanRange(Amount, AmountErrors(amount, lim));
    var violated := if keysOk && (recipe, ingredient) in t.recipeIngredients then [UniqueRecipeIngredients] else [];
    if fieldErrors == [] && violated == [] then None else Some(Rejected(fieldErrors, violated))
  }

  /**
   * Validation of a new (user, recipe) row of a favourites or shopping-list
   * table: accepted exactly when the recipe exists and the pair is absent;
   * the pair's constraint is reported only for an existing recipe.
   */
  function CleanUserRecipe(recipes: map<RecipeId, Recipe>, rows: set<(UserId, RecipeId)>, unique: Constraint, user: UserId, recipe: RecipeId): (e: Option<Error>)
    ensures e.None? <==> recipe in recipes && (user, recipe) !in rows
    ensures e.Some? ==> (e.value.violated == [unique] <==> recipe in recipes)
    ensures e.Some? ==> (e.value.fieldErrors == [] <==> recipe in recipes)
  {
    if recipe !in recipes then Some(Rejected([FieldError(RecipeRef, DoesNotExist)], []))
    else if (user, recipe) in rows then Some(Rejected([], [unique]))
    else None
  }

  /**
   * Validation of a new short link: accepted exactly when the recipe exists
   * and has no link yet, and the link is non-empty, at most LENGTH long and
   * used by no other recipe.
   */
  function CleanShortLink(t: Tables, lim: Limits, recipe: RecipeId, link: string): (e: Option<Error>)
    ensures e.None? <==> && recipe in t.recipes && recipe !in t.shortLinks
                         && ShortLinkValid(link, lim) && !ShortLinkTaken(t.shortLinks, link)
    ensures e.Some? ==> (ShortLinkPerRecipe in e.value.violated <==> recipe in t.recipes && recipe in t.shortLinks)
    ensures e.Some? ==> (UniqueShortLink in e.value.violated <==> ShortLinkValid(link, lim) && ShortLinkTaken(t.shortLinks, link))
  {
    var linkErrors := CleanChar(ShortLink, link, lim.length);
    var fieldErrors := (if recipe in t.recipes then [] else [FieldError(RecipeRef, DoesNotExist)]) + linkErrors;
    var violated :=
      (if recipe in t.recipes && recipe in t.shortLinks then [ShortLinkPerRecipe] else [])
      + (if linkErrors == [] && ShortLinkTaken(t.shortLinks, link) then [UniqueShortLink] else []);
    if fieldErrors == [] && violated == [] then None else Some(Rejected(fieldErrors, violated))
  }

  // ----- cascading deletes -----

  /** The pairs whose first component is not in `gone`. */
  function DropFirst<A(==), B(==)>(rows: set<(A, B)>, gone: set<A>): set<(A, B)> {
    set p | p in rows && p.0 !in gone
  }

  /** The pairs whose second component is not in `gone`. */
  function DropSecond<A(==), B(==)>(rows: set<(A, B)>, gone: set<B>): set<(A, B)> {
    set p | p in rows && p.1 !in gone
  }

  /** The entries whose key's first component is not in `gone`. */
  function DropKeysFirst<A(==), B(==), V>(rows: map<(A, B), V>, gone: set<A>): map<(A, B), V> {
    map k | k in rows && k.0 !in gone :: rows[k]
  }

  /** The entries whose key's second component is not in `gone`. */
  function DropKeysSecond<A(==), B(==), V>(rows: map<(A, B), V>, gone: set<B>): map<(A, B), V> {
    map k | k in rows && k.1 !in gone :: rows[k]
  }

  /**
   * Deleting a set of recipes with everything that refers to them: tag
   * links, ingredient rows, favourites, cart entries and short links.
   */
  function DeleteRecipesRows(t: Tables, gone: set<RecipeId>): Tables {
    t.(
      recipes := t.recipes - gone,
      recipeTags := DropFirst(t.recipeTags, gone),
      recipeIngredients := DropKeysFirst(t.recipeIngredients, gone),
      favorites := DropSecond(t.favorites, gone),
      shoppingCart := DropSecond(t.shoppingCart, gone),
      shortLinks := t.shortLinks - gone
    )
  }

  /** Deleting one recipe with everything that refers to it. */
  function DeleteRecipeRows(t: Tables, recipe: RecipeId): Tables {
    DeleteRecipesRows(t, {recipe})
  }

  /** Deleting an ingredient with the recipe rows that use it. */
  function DeleteIngredientRows(t: Tables, ingredient: IngredientId): Tables {
    t.(
      ingredients := t.ingredients - {ingredient},
      recipeIngredients := DropKeysSecond(t.recipeIngredients, {ingredient})
    )
  }

  /** Deleting a tag with its links to recipes. */
  function DeleteTagRows(t: Tables, tag: TagId): Tables {
    t.(
      tags := t.tags - {tag},
      recipeTags := DropSecond(t.recipeTags, {tag})
    )
  }

  /** The recipes a user wrote. */
  function AuthoredBy(recipes: map<RecipeId, Recipe>, user: UserId): set<RecipeId> {
    set r | r in recipes && recipes[r].author == user
  }

  /**
   * Deleting a user's rows: the recipes they wrote (with everything that
   * refers to those), and their own favourites and cart entries.
   */
  function DeleteUserRows(t: Tables, user: UserId): Tables {
    var t' := DeleteRecipesRows(t, AuthoredBy(t.recipes, user));
    t'.(
      favorites := DropFirst(t'.favorites, {user}),
      shoppingCart := DropFirst(t'.shoppingCart, {user})
    )
  }

  /** Deleting a set of recipes with their dependents leaves no dangling reference and breaks no rule. */
  lemma DeleteRecipesKeepsConsistent(t: Tables, lim: Limits, gone: set<RecipeId>)
    requires Consistent(t, lim)
    ensures Consistent(DeleteRecipesRows(t, gone), lim)
  {
  }

  /** Deleting a recipe with its dependents leaves no dangling reference and breaks no rule. */
  lemma DeleteRecipeKeepsConsistent(t: Tables, lim: Limits, recipe: RecipeId)
    requires Consistent(t, lim)
    ensures Consistent(DeleteRecipeRows(t, recipe), lim)
  {
  }

  /**
   * Deleting a recipe removes the recipe, keeps every other recipe, every
   * ingredient and every tag, and keeps every row that belongs to another
   * recipe.
   */
  lemma DeleteRecipeCascade(t: Tables, recipe: RecipeId)
    ensures var t' := DeleteRecipeRows(t, recipe);
            && SubTables(t', t)
            && recipe !in t'.recipes && recipe !in t'.shortLinks
            && (forall r :: r in t.recipes && r != recipe ==> r in t'.recipes && t'.recipes[r] == t.recipes[r])
            && t'.ingredients == t.ingredients && t'.tags == t.tags
            && (forall p :: p in t.recipeTags && p.0 != recipe ==> p in t'.recipeTags)
            && (forall k :: k in t.recipeIngredients && k.0 != recipe ==> k in t'.recipeIngredients)
            && (forall p :: p in t.favorites && p.1 != recipe ==> p in t'.favorites)
            && (forall p :: p in t.shoppingCart && p.1 != recipe ==> p in t'.shoppingCart)
            && (forall r :: r in t.shortLinks && r != recipe ==> r in t'.shortLinks)
  {
  }

  /**
   * The cascade removes nothing it need not: every consistent part of the
   * tables without the recipe is a part of what the delete leaves.
   */
  lemma DeleteRecipeRemovesOnlyDependents(t: Tables, lim: Limits, recipe: RecipeId, other: Tables)
    requires SubTables(other, t) && Consistent(other, lim) && recipe !in other.recipes
    ensures SubTables(other, DeleteRecipeRows(t, recipe))
  {
  }

  /** Deleting a recipe that is not there changes nothing. */
  lemma DeleteAbsentRecipeIsNoOp(t: Tables, lim: Limits, recipe: RecipeId)
    requires Consistent(t, lim) && recipe !in t.recipes
    ensures DeleteRecipeRows(t, recipe) == t
  {
  }

  /** Deleting an ingredient with the rows that use it breaks no rule. */
  lemma DeleteIngredientKeepsConsistent(t: Tables, lim: Limits, ingredient: IngredientId)
    requires Consistent(t, lim)
    ensures Consistent(DeleteIngredientRows(t, ingredient), lim)
  {
  }

  /**
   * Deleting an ingredient removes it and exactly the recipe rows that use
   * it, and leaves every other table as it was.
   */
  lemma DeleteIngredientCascade(t: Tables, ingredient: IngredientId)
    ensures var t' := DeleteIngredientRows(t, ingredient);
            && SubTables(t', t)
            && ingredient !in t'.ingredients
            && (forall i :: i in t.ingredients && i != ingredient ==> i in t'.ingredients)
            && (forall k :: k in t'.recipeIngredients ==> k.1 != ingredient)
            && (forall k :: k in t.recipeIngredients && k.1 != ingredient ==> k in t'.recipeIngredients)
            && t'.recipes == t.recipes && t'.tags == t.tags && t'.recipeTags == t.recipeTags
            && t'.favorites == t.favorites && t'.shoppingCart == t.shoppingCart && t'.shortLinks == t.shortLinks
  {
  }

  /** Deleting a tag with its links breaks no rule. */
  lemma DeleteTagKeepsConsistent(t: Tables, lim: Limits, tag: TagId)
    requires Consistent(t, lim)
    ensures Consistent(DeleteTagRows(t, tag), lim)
  {
  }

  /** Deleting a tag removes it and exactly its links, and leaves every other table as it was. */
  lemma DeleteTagCascade(t: Tables, tag: TagId)
    ensures var t' := DeleteTagRows(t, tag);
            && SubTables(t', t)
            && tag !in t'.tags
            && (forall i :: i in t.tags && i != tag ==> i in t'.tags)
            && (forall p :: p in t'.recipeTags ==> p.1 != tag)
            && (forall p :: p in t.recipeTags && p.1 != tag ==> p in t'.recipeTags)
            && t'.recipes == t.recipes && t'.ingredients == t.ingredients
            && t'.recipeIngredients == t.recipeIngredients
            && t'.favorites == t.favorites && t'.shoppingCart == t.shoppingCart && t'.shortLinks == t.shortLinks
  {
  }

  /** Deleting a user's rows breaks no rule. */
  lemma DeleteUserKeepsConsistent(t: Tables, lim: Limits, user: UserId)
    requires Consistent(t, lim)
    ensures Consistent(DeleteUserRows(t, user), lim)
  {
  }

  /**
   * After deleting a user's rows no recipe, favourite or cart entry belongs
   * to the user; every recipe of another author is kept, and so is every
   * favourite and cart entry of another user on such a recipe.
   */
  lemma DeleteUserCascade(t: Tables, user: UserId)
    ensures var t' := DeleteUserRows(t, user);
            && SubTables(t', t)
            && (forall r :: r in t'.recipes ==> t'.recipes[r].author != user)
            && (forall p :: p in t'.favorites ==> p.0 != user)
            && (forall p :: p in t'.shoppingCart ==> p.0 != user)
            && (forall r :: r in t.recipes && t.recipes[r].author != user ==> r in t'.recipes)
            && (forall p :: p in t.favorites && p.0 != user && p.1 in t'.recipes ==> p in t'.favorites)
            && (forall p :: p in t.shoppingCart && p.0 != user && p.1 in t'.recipes ==> p in t'.shoppingCart)
            && t'.ingredients == t.ingredients && t'.tags == t.tags
  {
  }

  /**
   * Deleting a user whose only row is one recipe is the same as deleting
   * that recipe.
   */
  lemma DeleteOnlyRecipeOfUser(t: Tables, user: UserId, recipe: RecipeId)
    requires recipe in t.recipes && AuthoredBy(t.recipes, user) == {recipe}
    requires forall p :: p in t.favorites ==> p.0 != user
    requires forall p :: p in t.shoppingCart ==> p.0 != user
    ensures DeleteUserRows(t, user) == DeleteRecipeRows(t, recipe)
  {
  }

  // ----- inserting a validated row -----

  /** A fresh ingredient whose name is free keeps ingredient names unique. */
  lemma InsertIngredientKeepsUnique(t: Tables, t': Tables, x: Ingredient)
    requires UniqueValues(t) && t.nextIngredient !in t.ingredients
    requires !IngredientNameTaken(t.ingredients, x.name)
    requires t' == t.(ingredients := t.ingredients[t.nextIngredient := x], nextIngredient := t.nextIngredient + 1)
    ensures UniqueValues(t')
  {
  }

  /** A validated ingredient under the next id keeps the schema consistent. */
  lemma InsertIngredientKeepsConsistent(t: Tables, t': Tables, lim: Limits, x: Ingredient)
    requires Consistent(t, lim)
    requires CleanIngredient(t.ingredients, lim, x).None?
    requires t' == t.(ingredients := t.ingredients[t.nextIngredient := x], nextIngredient := t.nextIngredient + 1)
    ensures Consistent(t', lim)
  {
    assert t.nextIngredient !in t.ingredients;
    InsertIngredientKeepsUnique(t, t', x);
  }

  /** A fresh tag whose name and slug are free keeps tag names and slugs unique. */
  lemma InsertTagKeepsUnique(t: Tables, t': Tables, x: Tag)
    requires UniqueValues(t) && t.nextTag !in t.tags
    requires !TagNameTaken(t.tags, x.name) && !TagSlugTaken(t.tags, x.slug)
    requires t' == t.(tags := t.tags[t.nextTag := x], nextTag := t.nextTag + 1)
    ensures UniqueValues(t')
  {
  }

  /** A validated tag under the next id keeps the schema consistent. */
  lemma InsertTagKeepsConsistent(t: Tables, t': Tables, lim: Limits, x: Tag)
    requires Consistent(t, lim)
    requires CleanTag(t.tags, lim, x).None?
    requires t' == t.(tags := t.tags[t.nextTag := x], nextTag := t.nextTag + 1)
    ensures Consistent(t', lim)
  {
    assert t.nextTag !in t.tags;
    InsertTagKeepsUnique(t, t', x);
  }

  /** A short link that is free, for a recipe without one, keeps short links unique. */
  lemma InsertShortLinkKeepsUnique(t: Tables, t': Tables, recipe: RecipeId, link: string)
    requires UniqueValues(t) && recipe !in t.shortLinks
    requires !ShortLinkTaken(t.shortLinks, link)
    requires t' == t.(shortLinks := t.shortLinks[recipe := link])
    ensures UniqueValues(t')
  {
  }

  /** A validated short link keeps the schema consistent. */
  lemma InsertShortLinkKeepsConsistent(t: Tables, t': Tables, lim: Limits, recipe: RecipeId, link: string)
    requires Consistent(t, lim)
    requires CleanShortLink(t, lim, recipe, link).None?
    requires t' == t.(shortLinks := t.shortLinks[recipe := link])
    ensures Consistent(t', lim)
  {
    InsertShortLinkKeepsUnique(t, t', recipe, link);
  }

  /** A validated recipe under the next id keeps the schema consistent. */
  lemma InsertRecipeKeepsConsistent(t: Tables, t': Tables, lim: Limits, x: Recipe)
    requires Consistent(t, lim)
    requires RecipeFieldsValid(x, lim)
    requires t' == t.(recipes := t.recipes[t.nextRecipe := x], nextRecipe := t.nextRecipe + 1)
    ensures Consistent(t', lim)
  {
    assert t.nextRecipe !in t.recipes;
  }

  /** Linking an existing recipe to an existing tag keeps the schema consistent. */
  lemma InsertRecipeTagKeepsConsistent(t: Tables, t': Tables, lim: Limits, recipe: RecipeId, tag: TagId)
    requires Consistent(t, lim)
    requires recipe in t.recipes && tag in t.tags
    requires t' == t.(recipeTags := t.recipeTags + {(recipe, tag)})
    ensures Consistent(t', lim)
  {
  }

  /** A validated recipe-ingredient row keeps the schema consistent. */
  lemma InsertRecipeIngredientKeepsConsistent(t: Tables, t': Tables, lim: Limits, recipe: RecipeId, ingredient: IngredientId, amount: nat)
    requires Consistent(t, lim)
    requires CleanIngredientRecipe(t, lim, recipe, ingredient, amount).None?
    requires t' == t.(recipeIngredients := t.recipeIngredients[(recipe, ingredient) := amount])
    ensures Consistent(t', lim)
  {
  }

  /** A favourite of an existing recipe keeps the schema consistent. */
  lemma InsertFavoriteKeepsConsistent(t: Tables, t': Tables, lim: Limits, user: UserId, recipe: RecipeId)
    requires Consistent(t, lim)
    requires recipe in t.recipes
    requires t' == t.(favorites := t.favorites + {(user, recipe)})
    ensures Consistent(t', lim)
  {
    assert ReferencesExist(t');
  }

  /** A shopping-list entry for an existing recipe keeps the schema consistent. */
  lemma InsertCartEntryKeepsConsistent(t: Tables, t': Tables, lim: Limits, user: UserId, recipe: RecipeId)
    requires Consistent(t, lim)
    requires recipe in t.recipes
    requires t' == t.(shoppingCart := t.shoppingCart + {(user, recipe)})
    ensures Consistent(t', lim)
  {
    assert ReferencesExist(t');
  }

  /**
   * Removing rows of the link tables (tag links, ingredient rows,
   * favourites, cart entries) never breaks consistency: nothing refers to
   * a link row.
   */
  lemma RemoveLinkRowsKeepsConsistent(t: Tables, t': Tables, lim: Limits)
    requires Consistent(t, lim)
    requires t'.ingredients == t.ingredients && t'.tags == t.tags && t'.recipes == t.recipes
    requires t'.shortLinks == t.shortLinks
    requires t'.nextIngredient == t.nextIngredient && t'.nextTag == t.nextTag && t'.nextRecipe == t.nextRecipe
    requires t'.recipeTags <= t.recipeTags && t'.favorites <= t.favorites && t'.shoppingCart <= t.shoppingCart
    requires t'.recipeIngredients.Items <= t.recipeIngredients.Items
    ensures Consistent(t', lim)
  {
    assert IdsBelowSequences(t');
    assert RowsValid(t', lim) by {
      forall k | k in t'.recipeIngredients ensures AmountValid(t'.recipeIngredients[k], lim) {
        assert (k, t'.recipeIngredients[k]) in t.recipeIngredients.Items;
      }
    }
    assert UniqueValues(t');
    assert ReferencesExist(t') by {
      forall k | k in t'.recipeIngredients ensures k.0 in t'.recipes && k.1 in t'.ingredients {
        assert (k, t'.recipeIngredients[k]) in t.recipeIngredients.Items;
      }
    }
  }
}
