/**
 * The range validators on `Recipe.cooking_time` and `IngredientRecipe.amount`:
 * a MinValueValidator and a MaxValueValidator per field, run in declaration
 * order, every failure collected. An error carries the validator's code,
 * its limit, and what its message text claims about the rejected value.
 */
module Validators {
  import opened Wrappers
  import opened Constants

  /** MinValueValidator rejects values below its limit, MaxValueValidator values above it. */
  datatype Bound = MinValue | MaxValue

  /** The claim made by a message: "must not be less than <limit>" or "cannot be more than <limit>". */
  datatype Wording = NotLessThan | NotMoreThan

  datatype Validator = Validator(bound: Bound, limit: nat, wording: Wording)

  datatype ValidationError = ValidationError(code: Bound, limit: nat, wording: Wording)

  /** The value lies on the permitted side of the validator's limit (the limit itself is permitted). */
  predicate Passes(v: Validator, x: nat) {
    match v.bound
    case MinValue => v.limit <= x
    case MaxValue => x <= v.limit
  }

  function ErrorOf(v: Validator): ValidationError {
    ValidationError(v.bound, v.limit, v.wording)
  }

  /** One validator call: MinValueValidator compares `x < limit`, MaxValueValidator `x > limit`. */
  function Check(v: Validator, x: nat): (r: Option<ValidationError>)
    ensures r.None? <==> Passes(v, x)
    ensures r.Some? ==> r.value == ErrorOf(v)
  {
    match v.bound
    case MinValue => if x < v.limit then Some(ErrorOf(v)) else None
    case MaxValue => if x > v.limit then Some(ErrorOf(v)) else None
  }

  /**
   * Runs every validator on `x` and collects the errors in order. The value
   * is accepted exactly when every validator passes, and every error comes
   * from a validator that the value fails.
   */
  function RunValidators(vs: seq<Validator>, x: nat): (errors: seq<ValidationError>)
    ensures |errors| <= |vs|
    ensures errors == [] <==> forall i :: 0 <= i < |vs| ==> Passes(vs[i], x)
    ensures forall e :: e in errors ==> exists i :: 0 <= i < |vs| && !Passes(vs[i], x) && e == ErrorOf(vs[i])
    ensures forall i :: 0 <= i < |vs| && !Passes(vs[i], x) ==> ErrorOf(vs[i]) in errors
  {
    if vs == [] then []
    else
      var rest := RunValidators(vs[1..], x);
      assert forall i :: 1 <= i < |vs| ==> vs[i] == vs[1..][i - 1];
      match Check(vs[0], x)
      case Some(e) => [e] + rest
      case None => rest
  }

  /** The message states something true of the rejected value. */
  predicate Truthful(e: ValidationError, x: nat) {
    match e.wording
    case NotLessThan => x < e.limit
    case NotMoreThan => x > e.limit
  }

  /** A message is worded after its validator: "not less" for a minimum, "not more" for a maximum. */
  predicate WellWorded(v: Validator) {
    (v.bound == MinValue) == (v.wording == NotLessThan)
  }

  /** Errors of well-worded validators always describe the value truthfully. */
  lemma WellWordedErrorsAreTruthful(vs: seq<Validator>, x: nat)
    requires forall i :: 0 <= i < |vs| ==> WellWorded(vs[i])
    ensures forall e :: e in RunValidators(vs, x) ==> Truthful(e, x)
  {
    forall e | e in RunValidators(vs, x) ensures Truthful(e, x) {
      var i :| 0 <= i < |vs| && !Passes(vs[i], x) && e == ErrorOf(vs[i]);
      assert WellWorded(vs[i]);
    }
  }

  /** The validators of `cooking_time` as the source declares them: both messages say "must not be less than". */
  function CookingTimeValidatorsAsWritten(lim: Limits): (vs: seq<Validator>)
    ensures |vs| == 2 && WellWorded(vs[0]) && !WellWorded(vs[1])
    ensures forall x: nat :: Passes(vs[0], x) && Passes(vs[1], x) <==> lim.minTime <= x <= lim.maxTime
  {
    [Validator(MinValue, lim.minTime, NotLessThan), Validator(MaxValue, lim.maxTime, NotLessThan)]
  }

  /** The validators of `cooking_time` with the maximum's message saying "must not be more than". */
  function CookingTimeValidators(lim: Limits): (vs: seq<Validator>)
    ensures |vs| == 2 && WellWorded(vs[0]) && WellWorded(vs[1])
    ensures forall x: nat :: Passes(vs[0], x) && Passes(vs[1], x) <==> lim.minTime <= x <= lim.maxTime
  {
    [Validator(MinValue, lim.minTime, NotLessThan), Validator(MaxValue, lim.maxTime, NotMoreThan)]
  }

  /** The validators of `amount`. */
  function AmountValidators(lim: Limits): (vs: seq<Validator>)
    ensures |vs| == 2 && WellWorded(vs[0]) && WellWorded(vs[1])
    ensures forall x: nat :: Passes(vs[0], x) && Passes(vs[1], x) <==> lim.minAmount <= x <= lim.maxAmount
  {
    [Validator(MinValue, lim.minAmount, NotLessThan), Validator(MaxValue, lim.maxAmount, NotMoreThan)]
  }

  /** Validation of `cooking_time` with the source's messages: the accepted range is the same as intended. */
  function CookingTimeErrorsAsWritten(t: nat, lim: Limits): (errors: seq<ValidationError>)
    ensures errors == [] <==> lim.minTime <= t <= lim.maxTime
  {
    var vs := CookingTimeValidatorsAsWritten(lim);
    assert Passes(vs[0], t) <==> lim.minTime <= t;
    assert Passes(vs[1], t) <==> t <= lim.maxTime;
    RunValidators(vs, t)
  }

  /**
   * Validation of `cooking_time`: a time is accepted exactly when
   * `MIN_TIME <= t <= MAX_TIME`; a time below the range draws the minimum's
   * error, one above it the maximum's, and every message is truthful.
   */
  function CookingTimeErrors(t: nat, lim: Limits): (errors: seq<ValidationError>)
    ensures errors == [] <==> lim.minTime <= t <= lim.maxTime
    ensures t < lim.minTime ==> ValidationError(MinValue, lim.minTime, NotLessThan) in errors
    ensures t > lim.maxTime ==> ValidationError(MaxValue, lim.maxTime, NotMoreThan) in errors
    ensures forall e :: e in errors ==> Truthful(e, t)
  {
    var vs := CookingTimeValidators(lim);
    assert Passes(vs[0], t) <==> lim.minTime <= t;
    assert Passes(vs[1], t) <==> t <= lim.maxTime;
    WellWordedErrorsAreTruthful(vs, t);
    RunValidators(vs, t)
  }

  /**
   * Validation of `amount`: an amount is accepted exactly when
   * `MIN_AMOUNT <= a <= MAX_AMOUNT`; out-of-range amounts draw the error of
   * the bound they cross, and every message is truthful.
   */
  function AmountErrors(a: nat, lim: Limits): (errors: seq<ValidationError>)
    ensures errors == [] <==> lim.minAmount <= a <= lim.maxAmount
    ensures a < lim.minAmount ==> ValidationError(MinValue, lim.minAmount, NotLessThan) in errors
    ensures a > lim.maxAmount ==> ValidationError(MaxValue, lim.maxAmount, NotMoreThan) in errors
    ensures forall e :: e in errors ==> Truthful(e, a)
  {
    var vs := AmountValidators(lim);
    assert Passes(vs[0], a) <==> lim.minAmount <= a;
    assert Passes(vs[1], a) <==> a <= lim.maxAmount;
    WellWordedErrorsAreTruthful(vs, a);
    RunValidators(vs, a)
  }

  /**
   * With the source's wording, a cooking time one above MAX_TIME is rejected
   * by the maximum alone, and its message claims the time must not be LESS
   * than MAX_TIME, which the time is not.
   */
  lemma CookingTimeMaxMessageMisleading(lim: Limits)
    requires lim.Ordered()
    ensures CookingTimeErrorsAsWritten(lim.maxTime + 1, lim) == [ValidationError(MaxValue, lim.maxTime, NotLessThan)]
    ensures !Truthful(ValidationError(MaxValue, lim.maxTime, NotLessThan), lim.maxTime + 1)
  {
  }

  /**
   * The declared and the corrected validation of `cooking_time` report the
   * same validators with the same limits, in the same order; they differ
   * only in the wording of the maximum's message.
   */
  lemma CookingTimeWordingIsTheOnlyDifference(t: nat, lim: Limits)
    ensures var written, corrected := CookingTimeErrorsAsWritten(t, lim), CookingTimeErrors(t, lim);
            && |written| == |corrected|
            && forall i :: 0 <= i < |written| ==>
                 && written[i].code == corrected[i].code
                 && written[i].limit == corrected[i].limit
                 && written[i].wording == NotLessThan
  {
  }
}
