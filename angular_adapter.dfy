/**
 * The Angular side of the forbidden-value rule
 * (libs/validation/src/lib/angular/validator.ts): the validator factory
 * `forbiddenValidator` and the directive that keeps one such validator
 * for the `forbidden` input of a form control.
 */
module AngularAdapter {
  import opened JsRuntime
  import Validator

  /** A validator's error report; this rule only ever reports `{forbidden: true}`. */
  type ValidationErrors = map<string, bool>

  const ForbiddenError: ValidationErrors := map["forbidden" := true]

  /** The closures `forbiddenValidator` can return, each by what it captures:
      Angular's `Validators.nullValidator`, or the check against one
      forbidden string. */
  datatype ValidatorFn = NullValidator | ForbiddenCheck(forbiddenValue: string)

  /** `forbiddenValidator(forbiddenValue)`: for a non-string forbidden value
      a validator that accepts every control; for a string, one that throws
      on `undefined` and reports exactly the non-empty strings containing
      the forbidden value, ignoring case. */
  function ForbiddenValidator(forbiddenValue: JsVal): (fn: ValidatorFn)
    ensures !forbiddenValue.Str? ==> forall control :: Run(fn, control) == Normal(None)
    ensures forbiddenValue.Str? ==> forall control :: Run(fn, control).Thrown? <==> control.Undefined?
    ensures forbiddenValue.Str? ==> forall control ::
              Run(fn, control) == Normal(Some(ForbiddenError)) <==>
                control.Str? && control.s != "" && Contains(Lower(control.s), Lower(forbiddenValue.s))
  {
    if forbiddenValue.Str? then ForbiddenCheck(forbiddenValue.s) else NullValidator
  }

  /** Calling a validator on a control whose value is `control`. The result
      is `null` (None) or `{forbidden: true}`; the check throws only when it
      reads `.length` of `undefined`; it reports the control exactly when the
      value is a non-empty string that contains the forbidden value,
      ignoring case. */
  function Run(fn: ValidatorFn, control: JsVal): (r: Completion<Option<ValidationErrors>>)
    ensures r.Thrown? <==> fn.ForbiddenCheck? && control.Undefined?
    ensures r.Normal? ==> r.value == None || r.value == Some(ForbiddenError)
    ensures r == Normal(Some(ForbiddenError)) <==>
              && fn.ForbiddenCheck?
              && control.Str? && control.s != ""
              && Contains(Lower(control.s), Lower(fn.forbiddenValue))
  {
    match fn
    case NullValidator => Normal(None)
    case ForbiddenCheck(f) =>
      if control.Null? then Normal(None)
      else if control.Undefined? then Thrown(TypeError)
      else if Length(control) == Some(0) then Normal(None)
      else Normal(if Validator.IsForbidden(control, f) then Some(ForbiddenError) else None)
  }

  /** A forbidden value that is not a string switches the check off. */
  lemma NonStringForbiddenValueAcceptsAll(forbiddenValue: JsVal, control: JsVal)
    requires !forbiddenValue.Str?
    ensures Run(ForbiddenValidator(forbiddenValue), control) == Normal(None)
  {
  }

  /** `null` and zero-length values are accepted whatever the forbidden value. */
  lemma NullOrEmptyControlAccepted(forbiddenValue: JsVal, control: JsVal)
    requires control.Null? || (!control.Undefined? && Length(control) == Some(0))
    ensures Run(ForbiddenValidator(forbiddenValue), control) == Normal(None)
  {
  }

  /** Any other defined value is judged by the live predicate. */
  lemma OtherControlsDelegate(forbiddenValue: string, control: JsVal)
    requires !control.Null? && !control.Undefined? && Length(control) != Some(0)
    ensures Run(ForbiddenValidator(Str(forbiddenValue)), control) ==
            Normal(if Validator.IsForbidden(control, forbiddenValue) then Some(ForbiddenError) else None)
  {
  }

  /** A defined value that is not a string is never reported. */
  lemma NonStringControlAccepted(forbiddenValue: JsVal, control: JsVal)
    requires !control.Str? && !control.Undefined?
    ensures Run(ForbiddenValidator(forbiddenValue), control) == Normal(None)
  {
  }

  /** `undefined` is not guarded: an active check throws on it. */
  lemma UndefinedControlThrows(forbiddenValue: string)
    ensures Run(ForbiddenValidator(Str(forbiddenValue)), Undefined) == Thrown(TypeError)
  {
  }

  /** `ForbiddenValidatorDirective`: Angular writes the `forbidden` input,
      then calls `ngOnChanges` with the names of the inputs that changed;
      the directive rebuilds its stored validator only when `forbidden` is
      among them, and `validate` runs whatever validator is stored. */
  class ForbiddenValidatorDirective {
    /** The `@Input() forbidden` binding, written by Angular. */
    var forbidden: JsVal
    /** The private `validator` field; None while it is still `undefined`. */
    var validator: Option<ValidatorFn>
    /** The value of `forbidden` at the last change that named it. */
    ghost var lastForbidden: Option<JsVal>

    ghost predicate Valid()
      reads this
    {
      validator == if lastForbidden.Some? then Some(ForbiddenValidator(lastForbidden.value)) else None
    }

    constructor ()
      ensures Valid()
      ensures forbidden == Undefined && lastForbidden == None
    {
      forbidden := Undefined;
      validator := None;
      lastForbidden := None;
    }

    /** `ngOnChanges(changes)`, with `changes` given by its keys. */
    method NgOnChanges(changes: set<string>)
      requires Valid()
      modifies this`validator, this`lastForbidden
      ensures Valid()
      ensures lastForbidden == if "forbidden" in changes then Some(forbidden) else old(lastForbidden)
      ensures "forbidden" !in changes ==> validator == old(validator)
    {
      if "forbidden" in changes {
        validator := Some(ForbiddenValidator(forbidden));
        lastForbidden := Some(forbidden);
      }
    }

    /** `validate(control)`: the stored validator applied to the control;
        calling the still-undefined validator throws. */
    method Validate(control: JsVal) returns (r: Completion<Option<ValidationErrors>>)
      requires Valid()
      ensures lastForbidden.None? ==> r == Thrown(TypeError)
      ensures lastForbidden.Some? ==> r == Run(ForbiddenValidator(lastForbidden.value), control)
    {
      match validator
      case None => r := Thrown(TypeError);
      case Some(fn) => r := Run(fn, control);
    }
  }

  /** A write to the `forbidden` input followed by a change set that does
      not name it leaves every later `validate` answer as it was. */
  method UnnamedWriteIgnored(d: ForbiddenValidatorDirective, f: JsVal, changes: set<string>, control: JsVal)
    returns (before: Completion<Option<ValidationErrors>>, after: Completion<Option<ValidationErrors>>)
    requires d.Valid() && "forbidden" !in changes
    modifies d
    ensures before == after
  {
    before := d.Validate(control);
    d.forbidden := f;
    d.NgOnChanges(changes);
    after := d.Validate(control);
  }

  /** A directive's life: before the first change `validate` throws; after
      a change naming `forbidden` it checks against the new value; a later
      write to the input that the change set does not name is ignored
      until a change names it. */
  method DirectiveLifecycle() returns (beforeChange: Completion<Option<ValidationErrors>>,
                                       afterChange: Completion<Option<ValidationErrors>>,
                                       afterUnnamedWrite: Completion<Option<ValidationErrors>>,
                                       afterNamedWrite: Completion<Option<ValidationErrors>>)
    ensures beforeChange == Thrown(TypeError)
    ensures afterChange == Normal(Some(ForbiddenError))
    ensures afterUnnamedWrite == Normal(Some(ForbiddenError))
    ensures afterNamedWrite == Normal(None)
  {
    var d := new ForbiddenValidatorDirective();
    beforeChange := d.Validate(Str("ab"));

    d.forbidden := Str("ab");
    d.NgOnChanges({"forbidden"});
    ContainsSelf(Lower("ab"));
    afterChange := d.Validate(Str("ab"));

    d.forbidden := Str("zz");
    d.NgOnChanges({"required"});
    afterUnnamedWrite := d.Validate(Str("ab"));

    d.NgOnChanges({"forbidden"});
    assert Lower("zz")[0] == 'z';
    assert Lower("ab") == "ab";
    NotContainsWithoutFirstChar(Lower("ab"), Lower("zz"));
    afterNamedWrite := d.Validate(Str("ab"));
  }
}
