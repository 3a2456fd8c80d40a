/**
 * The class-validator side of the forbidden-value rule
 * (libs/validation/src/lib/class-validator/validator.ts): the constraint
 * `IsForbiddenValidator.validate` and the `@IsForbidden` decorator, of which
 * only the record handed to `registerDecorator` is modelled.
 */
module ClassValidatorAdapter {
  import opened JsRuntime
  import Validator

  /** A plain JavaScript object such as `ValidationOptions`, by its own
      properties; a property that is absent reads as `undefined`. */
  type JsObject = map<string, JsVal>

  /** The record passed to `registerDecorator`. `target` stands for
      `object.constructor`; the `validator` entry is always
      `IsForbiddenValidator`, whose check is `Validate` below. */
  datatype Registration<Target> = Registration(
    target: Target,
    propertyName: string,
    options: JsObject,
    constraints: seq<JsVal>)

  const DefaultMessageSuffix := " contains forbidden value"

  /** `IsForbiddenValidator.validate(value, args)`, given `args.constraints`.
      A non-string value is valid without the constraint being looked at; a
      string is valid exactly when the first constraint, lower-cased, does
      not occur in its lower-cased form; a missing or non-string first
      constraint makes `toLowerCase` throw on a string value. */
  function Validate(value: JsVal, constraints: seq<JsVal>): (r: Completion<bool>)
    ensures r.Thrown? <==> value.Str? && (|constraints| == 0 || !constraints[0].Str?)
    ensures !value.Str? ==> r == Normal(true)
    ensures value.Str? && |constraints| > 0 && constraints[0].Str? ==>
              r == Normal(!Contains(Lower(value.s), Lower(constraints[0].s)))
  {
    var forbiddenValue := if |constraints| > 0 then constraints[0] else Undefined;
    if forbiddenValue.Str? then Normal(!Validator.IsForbidden(value, forbiddenValue.s))
    else if value.Str? then Thrown(TypeError)
    else Normal(true)
  }

  /** `validationOptions?.message`. */
  function CallerMessage(validationOptions: Option<JsObject>): JsVal
  {
    match validationOptions
    case None => Undefined
    case Some(o) => if "message" in o then o["message"] else Undefined
  }

  /** `IsForbidden(forbiddenValue, validationOptions)` applied to the
      property `propertyName` of a class: the registration it makes. The
      only constraint is the forbidden value; the options are the caller's,
      with `message` set to the caller's message unless that is `null` or
      `undefined`, and to "<propertyName> contains forbidden value" then. */
  function IsForbidden<Target>(forbiddenValue: string, validationOptions: Option<JsObject>,
                               target: Target, propertyName: string): (reg: Registration<Target>)
    ensures reg.target == target && reg.propertyName == propertyName
    ensures reg.constraints == [Str(forbiddenValue)]
    ensures "message" in reg.options
    ensures reg.options["message"] ==
              if CallerMessage(validationOptions).Null? || CallerMessage(validationOptions).Undefined?
              then Str(propertyName + DefaultMessageSuffix)
              else CallerMessage(validationOptions)
    ensures forall k :: k != "message" ==>
              (k in reg.options <==> validationOptions.Some? && k in validationOptions.value)
    ensures forall k :: k != "message" && k in reg.options ==>
              reg.options[k] == validationOptions.value[k]
  {
    var given := CallerMessage(validationOptions);
    var message := if given.Null? || given.Undefined? then Str(propertyName + DefaultMessageSuffix) else given;
    var spread := if validationOptions.Some? then validationOptions.value else map[];
    Registration(target, propertyName, spread["message" := message], [Str(forbiddenValue)])
  }

  /** Constraints after the first are never consulted. */
  lemma OnlyFirstConstraintConsulted(value: JsVal, first: JsVal, rest: seq<JsVal>)
    ensures Validate(value, [first] + rest) == Validate(value, [first])
  {
  }

  /** The check a registration makes is the negated live predicate. */
  lemma RegisteredCheck<Target>(forbiddenValue: string, validationOptions: Option<JsObject>,
                                target: Target, propertyName: string, value: JsVal)
    ensures Validate(value, IsForbidden(forbiddenValue, validationOptions, target, propertyName).constraints)
            == Normal(!Validator.IsForbidden(value, forbiddenValue))
  {
  }

  /** An empty message is a message: only `null` and `undefined` fall back
      to the default. */
  lemma EmptyMessageKept<Target>(target: Target, propertyName: string)
    ensures IsForbidden("x", Some(map["message" := Str("")]), target, propertyName).options["message"] == Str("")
    ensures IsForbidden("x", Some(map["message" := Null]), target, propertyName).options["message"]
            == Str(propertyName + " contains forbidden value")
  {
  }
}
