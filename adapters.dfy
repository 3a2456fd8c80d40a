/**
 * How the two adapters of the live predicate compare on the same value and
 * the same forbidden string.
 */
module Adapters {
  import opened JsRuntime
  import Validator
  import AngularAdapter
  import ClassValidatorAdapter

  /** The Angular check reports the value. */
  predicate AngularRejects(value: JsVal, forbiddenValue: string)
  {
    AngularAdapter.Run(AngularAdapter.ForbiddenValidator(Str(forbiddenValue)), value)
      == Normal(Some(AngularAdapter.ForbiddenError))
  }

  /** The class-validator check, as registered by the decorator, reports the value. */
  predicate ClassValidatorRejects(value: JsVal, forbiddenValue: string)
  {
    ClassValidatorAdapter.Validate(value, [Str(forbiddenValue)]) == Normal(false)
  }

  /** The adapters agree on every value except two: the empty string, which
      Angular always accepts and class-validator rejects exactly when the
      forbidden value is empty too, and `undefined`, on which Angular throws
      and class-validator accepts. */
  lemma AdaptersAgreeExceptEmptyAndUndefined(value: JsVal, forbiddenValue: string)
    ensures value != Str("") && !value.Undefined? ==>
              (AngularRejects(value, forbiddenValue) <==> ClassValidatorRejects(value, forbiddenValue))
    ensures !AngularRejects(Str(""), forbiddenValue)
    ensures ClassValidatorRejects(Str(""), forbiddenValue) <==> forbiddenValue == ""
    ensures AngularAdapter.Run(AngularAdapter.ForbiddenValidator(Str(forbiddenValue)), Undefined).Thrown?
    ensures ClassValidatorAdapter.Validate(Undefined, [Str(forbiddenValue)]) == Normal(true)
  {
  }

  /** The concrete divergence: with an empty forbidden value, the empty
      string is invalid for class-validator and valid for Angular. */
  lemma EmptyStringDivergence()
    ensures ClassValidatorRejects(Str(""), "")
    ensures AngularAdapter.Run(AngularAdapter.ForbiddenValidator(Str("")), Str("")) == Normal(None)
  {
  }
}
