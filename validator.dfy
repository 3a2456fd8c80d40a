/**
 * The live forbidden-value predicate (libs/validation/src/lib/validator.ts),
 * the one both adapters import: a value is forbidden when it is a string
 * that contains the forbidden value, both compared in lower case.
 */
module Validator {
  import opened JsRuntime

  /** `isForbidden(value, forbiddenValue)`: a non-string value is never
      forbidden; a string is forbidden exactly when the lower-cased
      forbidden value occurs in the lower-cased string. */
  function IsForbidden(value: JsVal, forbiddenValue: string): (r: bool)
    ensures !value.Str? ==> !r
    ensures value.Str? ==> (r <==> Contains(Lower(value.s), Lower(forbiddenValue)))
  {
    if value.Str? then
      IncludesIsContains(Lower(value.s), Lower(forbiddenValue));
      Includes(Lower(value.s), Lower(forbiddenValue))
    else
      false
  }

  /** Upper- or lower-casing either argument never changes the verdict. */
  lemma CaseInsensitive(value: string, forbiddenValue: string)
    ensures IsForbidden(Str(Lower(value)), forbiddenValue) == IsForbidden(Str(value), forbiddenValue)
    ensures IsForbidden(Str(Upper(value)), forbiddenValue) == IsForbidden(Str(value), forbiddenValue)
    ensures IsForbidden(Str(value), Lower(forbiddenValue)) == IsForbidden(Str(value), forbiddenValue)
    ensures IsForbidden(Str(value), Upper(forbiddenValue)) == IsForbidden(Str(value), forbiddenValue)
  {
    LowerIdempotent(value);
    LowerOfUpper(value);
    LowerIdempotent(forbiddenValue);
    LowerOfUpper(forbiddenValue);
  }

  /** The empty forbidden value forbids every string. */
  lemma EmptyForbiddenValueForbidsEveryString(value: string)
    ensures IsForbidden(Str(value), "")
  {
  }

  /** The empty string is forbidden only by the empty forbidden value. */
  lemma EmptyStringForbiddenOnlyByEmpty(forbiddenValue: string)
    ensures IsForbidden(Str(""), forbiddenValue) <==> forbiddenValue == ""
  {
    ContainsInEmpty(Lower(forbiddenValue));
  }

  /** A forbidden string stays forbidden whatever is put before or after it. */
  lemma ForbiddenSurvivesExtension(value: string, forbiddenValue: string, prefix: string, suffix: string)
    requires IsForbidden(Str(value), forbiddenValue)
    ensures IsForbidden(Str(prefix + value + suffix), forbiddenValue)
  {
    ContainsExtend(Lower(value), Lower(forbiddenValue), Lower(prefix), Lower(suffix));
    LowerConcat(prefix, value);
    LowerConcat(prefix + value, suffix);
  }

  /** Worked example: a match in another case. */
  lemma ExampleMixedCaseMatch()
    ensures IsForbidden(Str("TEST123"), "test")
  {
  }

  /** Worked example: "world" matches "Hello World" in another case. */
  lemma ExampleHelloWorldMatch()
    ensures IsForbidden(Str("Hello World"), "world")
  {
    LowerHelloWorld();
    LowerSlice("Hello World", 6, 11);
    assert "Hello World"[6..11] == "World";
    assert "hello world"[6..11] == "world";
    assert OccursAt(Lower("Hello World"), Lower("World"), 6);
    CaseInsensitive("Hello World", "World");
  }

  /** Worked example: "xyz" does not occur in "Hello World". */
  lemma ExampleHelloWorldMiss()
    ensures !IsForbidden(Str("Hello World"), "xyz")
  {
    LowerHelloWorld();
    assert Lower("xyz")[0] == 'x';
    NotContainsWithoutFirstChar(Lower("Hello World"), Lower("xyz"));
  }

  lemma LowerHelloWorld()
    ensures Lower("Hello World") == "hello world"
  {
    LowerConcat("H", "ello ");
    LowerConcat("H" + "ello ", "W");
    LowerConcat("H" + "ello " + "W", "orld");
  }

  /** Worked examples: the empty and the absent value are not forbidden. */
  lemma ExampleEmptyOrAbsent()
    ensures !IsForbidden(Str(""), "x")
    ensures !IsForbidden(Null, "x") && !IsForbidden(Undefined, "x")
  {
  }
}
