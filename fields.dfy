/**
 * Field-level cleaning of the text columns declared in the models: a
 * required CharField rejects the empty string (and then reports nothing
 * else) and otherwise a value longer than its max_length; a SlugField first
 * checks the slug alphabet, then the length; a required TextField only
 * rejects the empty string. Errors name the field they belong to.
 */
module Fields {
  import opened Validators

  datatype Field =
    | IngredientName | MeasurementUnit
    | TagName | TagSlug
    | RecipeName | RecipeImage | RecipeText | CookingTime
    | RecipeRef | IngredientRef | TagRef | Amount
    | ShortLink

  datatype Problem =
    | Blank                                  // a required field left empty
    | TooLong(maxLength: nat)                // MaxLengthValidator
    | NotASlug                               // validate_slug
    | OutOfRange(errors: seq<ValidationError>)  // the field's value validators
    | DoesNotExist                           // a foreign key to a missing row

  datatype FieldError = FieldError(field: Field, problem: Problem)

  /** A character allowed in a slug: an ASCII letter, digit, underscore or hyphen. */
  predicate SlugChar(c: char) {
    ('a' <= c <= 'z') || ('A' <= c <= 'Z') || ('0' <= c <= '9') || c == '_' || c == '-'
  }

  /** What validate_slug accepts: one or more slug characters. */
  predicate IsSlug(s: string) {
    |s| > 0 && forall i :: 0 <= i < |s| ==> SlugChar(s[i])
  }

  /** Cleaning of a required CharField: accepted exactly when not empty and within `maxLength`. */
  function CleanChar(field: Field, value: string, maxLength: nat): (errors: seq<FieldError>)
    ensures errors == [] <==> 0 < |value| <= maxLength
    ensures forall e :: e in errors ==> e.field == field
    ensures |value| == 0 ==> errors == [FieldError(field, Blank)]
  {
    if |value| == 0 then [FieldError(field, Blank)]
    else if |value| > maxLength then [FieldError(field, TooLong(maxLength))]
    else []
  }

  /**
   * Cleaning of a required SlugField: accepted exactly when the value is a
   * slug within `maxLength`; a non-empty value may draw both the slug and
   * the length error.
   */
  function CleanSlug(field: Field, value: string, maxLength: nat): (errors: seq<FieldError>)
    ensures errors == [] <==> IsSlug(value) && |value| <= maxLength
    ensures forall e :: e in errors ==> e.field == field
    ensures |value| > maxLength ==> FieldError(field, TooLong(maxLength)) in errors
  {
    if |value| == 0 then [FieldError(field, Blank)]
    else
      (if IsSlug(value) then [] else [FieldError(field, NotASlug)])
      + (if |value| > maxLength then [FieldError(field, TooLong(maxLength))] else [])
  }

  /**
   * Cleaning of a required field without a length bound (a TextField, or the
   * name of an uploaded file in an ImageField): accepted exactly when not empty.
   */
  function CleanText(field: Field, value: string): (errors: seq<FieldError>)
    ensures errors == [] <==> |value| > 0
    ensures forall e :: e in errors ==> e.field == field
  {
    if |value| == 0 then [FieldError(field, Blank)] else []
  }

  /** Cleaning of a field guarded by value validators: accepted exactly when they raise nothing. */
  function CleanRange(field: Field, errors: seq<ValidationError>): (fieldErrors: seq<FieldError>)
    ensures fieldErrors == [] <==> errors == []
    ensures forall e :: e in fieldErrors ==> e == FieldError(field, OutOfRange(errors))
  {
    if errors == [] then [] else [FieldError(field, OutOfRange(errors))]
  }
}
