# Forbidden-value validation, modelled in Dafny

This project models the shared validation rule of a small full-stack
TypeScript workshop repository: a field value is *forbidden* when it is a
string that contains a given forbidden value. The rule exists in two
versions and is plugged into two validation frameworks:

- `libs/validation/src/lib/validator.ts` — the live `isForbidden`, which
  lower-cases both strings and then tests substring containment
  (module `Validator`);
- `libs/validation/src/lib/validation.ts` — an older, case-sensitive copy
  that neither adapter imports (module `Validation`);
- `libs/validation/src/lib/angular/validator.ts` — the Angular adapter:
  the validator factory `forbiddenValidator` and the
  `ForbiddenValidatorDirective`, whose `ngOnChanges` rebuilds a stored
  validator and whose `validate` runs it (module `AngularAdapter`, with the
  directive as a class with a mutable `validator` field);
- `libs/validation/src/lib/class-validator/validator.ts` — the
  class-validator adapter: `IsForbiddenValidator.validate` and the record
  that the `@IsForbidden` decorator hands to `registerDecorator` (module
  `ClassValidatorAdapter`).

Module `JsRuntime` (js_runtime.dfy) holds what these rely on from
JavaScript: dynamically typed values (`null`, `undefined`, strings, other
values with an optional numeric `length`), a thrown `TypeError` as an
explicit `Completion` result, `toLowerCase` as a per-character ASCII fold,
and `includes` as a left-to-right search proved equal to the reference
definition of substring containment (`Contains`: some start index at which
the needle occurs). Module `Adapters` (adapters.dfy) compares the two
adapters on the same input.

Two consequences of the code are worth stating up front:

- `"".includes("")` is true, so the live predicate forbids the empty string
  when the forbidden value is empty too
  (`Validator.EmptyStringForbiddenOnlyByEmpty`);
- the Angular adapter accepts `null` and zero-length values before
  delegating and throws on `undefined`; the class-validator adapter does
  neither, so the two disagree on `""` and on `undefined`
  (`Adapters.AdaptersAgreeExceptEmptyAndUndefined`).

## Model

| member | source | states |
|---|---|---|
| `JsRuntime.IncludesIsContains` | libs/validation/src/lib/validator.ts:2 | The `includes` search answers true exactly when the needle occurs at some index of the haystack. |
| `Validator.IsForbidden` | libs/validation/src/lib/validator.ts:1-3 | A non-string value is never forbidden; a string is forbidden exactly when the lower-cased forbidden value occurs as a contiguous substring of the lower-cased string. |
| `Validator.CaseInsensitive` | libs/validation/src/lib/validator.ts:2 | Replacing the value or the forbidden value by its upper- or lower-cased form never changes the verdict. |
| `Validator.EmptyForbiddenValueForbidsEveryString` | libs/validation/src/lib/validator.ts:2 | An empty forbidden value forbids every string. |
| `Validator.EmptyStringForbiddenOnlyByEmpty` | libs/validation/src/lib/validator.ts:2 | The empty string is forbidden if and only if the forbidden value is empty. |
| `Validator.ForbiddenSurvivesExtension` | libs/validation/src/lib/validator.ts:2 | A forbidden string stays forbidden with any prefix and suffix added. |
| `Validator.ExampleMixedCaseMatch` | libs/validation/src/lib/validator.ts:2 | "TEST123" is forbidden by "test". |
| `Validator.ExampleHelloWorldMatch` | libs/validation/src/lib/validator.ts:2 | "Hello World" is forbidden by "world". |
| `Validator.ExampleHelloWorldMiss` | libs/validation/src/lib/validator.ts:2 | "Hello World" is not forbidden by "xyz". |
| `Validator.ExampleEmptyOrAbsent` | libs/validation/src/lib/validator.ts:2 | "", `null` and `undefined` are not forbidden by "x". |
| `Validation.IsForbidden` | libs/validation/src/lib/validation.ts:1-3 | A non-string value is never forbidden; a string is forbidden exactly when the forbidden value occurs in it as a contiguous substring, case kept. |
| `Validation.EmptyForbiddenValueForbidsEveryString` | libs/validation/src/lib/validation.ts:2 | An empty forbidden value forbids every string. |
| `Validation.ForbiddenBySelf` | libs/validation/src/lib/validation.ts:2 | Every string is forbidden by itself. |
| `Validation.CaseSensitiveImpliesCaseInsensitive` | libs/validation/src/lib/validation.ts:2 | Whatever the case-sensitive copy forbids, the live predicate of validator.ts forbids too. |
| `Validation.CaseInsensitiveDoesNotImplyCaseSensitive` | libs/validation/src/lib/validation.ts:2 | The converse fails: "Hello World" is forbidden by "world" for the live predicate and not for the copy. |
| `AngularAdapter.ForbiddenValidator` | libs/validation/src/lib/angular/validator.ts:6-21 | For a non-string forbidden value the factory returns a validator that accepts every control; for a string, one that throws exactly on `undefined` and reports exactly the non-empty strings containing the forbidden value, ignoring case. The lemmas `NonStringForbiddenValueAcceptsAll`, `NullOrEmptyControlAccepted` and `OtherControlsDelegate` restate this branch by branch of the source. |
| `AngularAdapter.Run` | libs/validation/src/lib/angular/validator.ts:12-20 | Calling a validator gives `null` or exactly `{forbidden: true}`; it throws only for the active check on `undefined`; it reports `{forbidden: true}` exactly for a non-empty string containing the forbidden value, ignoring case. |
| `AngularAdapter.NonStringForbiddenValueAcceptsAll` | libs/validation/src/lib/angular/validator.ts:8-10 | A forbidden value that is not a string yields the null validator, which accepts every control. |
| `AngularAdapter.NullOrEmptyControlAccepted` | libs/validation/src/lib/angular/validator.ts:15-17 | A `null` or zero-length control value is accepted whatever the forbidden value. |
| `AngularAdapter.OtherControlsDelegate` | libs/validation/src/lib/angular/validator.ts:19 | Any other defined value gets `{forbidden: true}` if the live `isForbidden` holds and `null` otherwise. |
| `AngularAdapter.NonStringControlAccepted` | libs/validation/src/lib/angular/validator.ts:15-19 | A defined value that is not a string is never reported. |
| `AngularAdapter.UndefinedControlThrows` | libs/validation/src/lib/angular/validator.ts:15 | An `undefined` control value makes the active check throw when it reads `.length`. |
| `AngularAdapter.ForbiddenValidatorDirective.constructor` | libs/validation/src/lib/angular/validator.ts:33-37 | A new directive has no stored validator and an `undefined` input. |
| `AngularAdapter.ForbiddenValidatorDirective.NgOnChanges` | libs/validation/src/lib/angular/validator.ts:39-43 | The stored validator is rebuilt from the current input exactly when the change set names `forbidden`, and is unchanged otherwise. |
| `AngularAdapter.ForbiddenValidatorDirective.Validate` | libs/validation/src/lib/angular/validator.ts:45-47 | `validate(control)` equals `forbiddenValidator(f)(control)` for the input `f` at the last change that named `forbidden`, and throws before any such change. |
| `AngularAdapter.UnnamedWriteIgnored` | libs/validation/src/lib/angular/validator.ts:39-47 | For every valid directive, input value, control and change set that does not name `forbidden`: writing the input and calling `ngOnChanges` leaves `validate`'s answer unchanged. |
| `AngularAdapter.DirectiveLifecycle` | libs/validation/src/lib/angular/validator.ts:39-47 | Example: `validate` throws before any change, reports "ab" once `forbidden` is "ab", still reports it after the input becomes "zz" under a change set without `forbidden`, and accepts it once a change names `forbidden`. |
| `ClassValidatorAdapter.Validate` | libs/validation/src/lib/class-validator/validator.ts:7-10 | A non-string value is valid; a string is valid exactly when the lower-cased first constraint does not occur in it lower-cased; a missing or non-string first constraint throws on a string value. |
| `ClassValidatorAdapter.OnlyFirstConstraintConsulted` | libs/validation/src/lib/class-validator/validator.ts:8 | Constraints after the first do not affect the result. |
| `ClassValidatorAdapter.IsForbidden` | libs/validation/src/lib/class-validator/validator.ts:13-22 | The registration has the given target and property, constraints `[forbiddenValue]`, the caller's options unchanged except `message`, and `message` the caller's unless `null` or `undefined`, else "<property> contains forbidden value". |
| `ClassValidatorAdapter.RegisteredCheck` | libs/validation/src/lib/class-validator/validator.ts:15-20 | The check a registration makes is exactly the negation of the live `isForbidden` on the registered forbidden value. |
| `ClassValidatorAdapter.EmptyMessageKept` | libs/validation/src/lib/class-validator/validator.ts:18 | An empty message is kept; a `null` message falls back to the default. |
| `Adapters.AdaptersAgreeExceptEmptyAndUndefined` | libs/validation/src/lib/angular/validator.ts:15-19 | Both adapters reject the same values except `""`, which Angular accepts and class-validator rejects exactly when the forbidden value is empty, and `undefined`, on which Angular throws and class-validator accepts. |
| `Adapters.EmptyStringDivergence` | libs/validation/src/lib/class-validator/validator.ts:9 | With forbidden value `""`, the value `""` is invalid for class-validator and valid for Angular. |

## Left out

- `toLowerCase` is an ASCII fold: locale rules and Unicode case mappings, including ones that change a string's length, are not modelled.
- A value other than a string is assumed to have no `toLowerCase` method, so a non-string first constraint throws `TypeError` on a string value; objects that define their own `toLowerCase` are not modelled.
- Both `isForbidden` versions take `forbiddenValue` as a string, as declared. In the live version a non-string reaches `toLowerCase` first and throws; that case is modelled where it can arise, in `ClassValidatorAdapter.Validate` (a non-string first constraint). Only the case-sensitive copy in validation.ts would coerce a non-string argument inside `includes` (`"null".includes(null)` is true); nothing calls that copy, and this coercion is not modelled.
- `ngOnChanges` receives the change set by its keys only: the `SimpleChange` entries (previous value, current value, first change) are never read by the source.
- The `NG_VALIDATORS` provider, `forwardRef`, the `@Directive` selector, the `NgModule` declaration and Angular's own calling of `ngOnChanges` and `validate` are framework wiring and are left out; the directive's input is written directly, as Angular does.
- What `registerDecorator` does with the record is class-validator's code and is not part of this model; only the record is modelled, with `object.constructor` as an opaque target.
- A `message` given as a function is carried over as an opaque non-string value; it is never called.
- The backend controller, the user DTO and the frontend component are HTTP, DTO and form wiring without logic of this rule.
