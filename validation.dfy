/**
 * The older, case-sensitive copy of the forbidden-value predicate
 * (libs/validation/src/lib/validation.ts). Neither adapter imports it; it is
 * kept here to pin down how it differs from the live, case-insensitive one.
 */
module Validation {
  import opened JsRuntime
  import Validator

  /** `isForbidden(value, forbiddenValue)`: a non-string value is never
      forbidden; a string is forbidden exactly when the forbidden value
      occurs in it character for character, case kept. */
  function IsForbidden(value: JsVal, forbiddenValue: string): (r: bool)
    ensures !value.Str? ==> !r
    ensures value.Str? ==> (r <==> Contains(value.s, forbiddenValue))
  {
    if value.Str? then
      IncludesIsContains(value.s, forbiddenValue);
      Includes(value.s, forbiddenValue)
    else
      false
  }

  /** The empty forbidden value forbids every string. */
  lemma EmptyForbiddenValueForbidsEveryString(value: string)
    ensures IsForbidden(Str(value), "")
  {
  }

  /** Every string is forbidden by itself. */
  lemma ForbiddenBySelf(s: string)
    ensures IsForbidden(Str(s), s)
  {
  }

  /** Whatever the case-sensitive copy forbids, the live predicate forbids too. */
  lemma CaseSensitiveImpliesCaseInsensitive(value: JsVal, forbiddenValue: string)
    requires IsForbidden(value, forbiddenValue)
    ensures Validator.IsForbidden(value, forbiddenValue)
  {
    ContainsLowered(value.s, forbiddenValue);
  }

  /** The converse fails: the live predicate forbids "Hello World" for
      "world", the case-sensitive copy does not. */
  lemma CaseInsensitiveDoesNotImplyCaseSensitive()
    ensures Validator.IsForbidden(Str("Hello World"), "world")
    ensures !IsForbidden(Str("Hello World"), "world")
  {
    Validator.ExampleHelloWorldMatch();
    NotContainsWithoutFirstChar("Hello World", "world");
  }
}
