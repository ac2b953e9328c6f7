/**
 * The guard `!errors[field.name]` of the native-validation fallback exactly as
 * JavaScript evaluates it on an object created as `{}`: besides the entries
 * the validator stored, every member inherited from `Object.prototype` reads
 * as a (truthy) entry that is already there.
 */
module PrototypeGuard {
  import opened Optional
  import opened LabelText
  import opened FormValidation

  /** The names every object literal inherits from `Object.prototype`. */
  const InheritedNames: set<string> := {
    "constructor", "hasOwnProperty", "isPrototypeOf", "propertyIsEnumerable",
    "toLocaleString", "toString", "valueOf", "__proto__",
    "__defineGetter__", "__defineSetter__", "__lookupGetter__", "__lookupSetter__"
  }

  /** `errors[name]` is truthy: a stored message (never empty) or an inherited member. */
  predicate ReadsAsPresent(errors: Errors, name: string) {
    name in errors || name in InheritedNames
  }

  /** One fallback step with the guards as written. */
  function FallbackStepAsWritten(errors: Errors, field: InvalidField): Errors {
    if !IsFormControl(field) then errors
    else
      var afterMissing :=
        if field.valueMissing && !ReadsAsPresent(errors, field.name)
        then errors[field.name := RequiredMessage(FieldLabel(field.labelText, field.name))]
        else errors;
      if field.typeMismatch && field.inputType == "email" && !ReadsAsPresent(afterMissing, "email")
      then afterMissing["email" := InvalidEmailMessage]
      else afterMissing
  }

  function FallbackPhaseAsWritten(fields: seq<InvalidField>, errors: Errors): Errors {
    if fields == [] then errors
    else FallbackPhaseAsWritten(fields[1..], FallbackStepAsWritten(errors, fields[0]))
  }

  /** A required input named `constructor` that the browser reports missing
      records nothing as written, so a form whose only problem it is comes out
      valid; with an own-entry guard it gets its message. */
  lemma InheritedNameHidesMissingField()
    ensures var field := InvalidField(InputElement, "constructor", "text", true, false, None);
      FallbackPhaseAsWritten([field], map[]) == map[] &&
      FallbackPhase([field], map[]) == map["constructor" := RequiredMessage("constructor")]
  {
    var field := InvalidField(InputElement, "constructor", "text", true, false, None);
    assert [field][1..] == [];
  }

  /** The two guards agree whenever no invalid element is named after an
      inherited member: the discrepancy is confined to those names. */
  lemma {:induction false} GuardsAgreeOffPrototype(fields: seq<InvalidField>, errors: Errors)
    requires forall i | 0 <= i < |fields| :: fields[i].name !in InheritedNames
    ensures FallbackPhaseAsWritten(fields, errors) == FallbackPhase(fields, errors)
    decreases |fields|
  {
    if fields != [] {
      StepsAgreeOffPrototype(errors, fields[0]);
      GuardsAgreeOffPrototype(fields[1..], FallbackStep(errors, fields[0]));
    }
  }

  lemma StepsAgreeOffPrototype(errors: Errors, field: InvalidField)
    requires field.name !in InheritedNames
    ensures FallbackStepAsWritten(errors, field) == FallbackStep(errors, field)
  {
    if IsFormControl(field) {
      var message := RequiredMessage(FieldLabel(field.labelText, field.name));
      var afterMissing :=
        if field.valueMissing && field.name !in errors then errors[field.name := message] else errors;
      EmailIsNotInherited();
      assert ReadsAsPresent(afterMissing, "email") == ("email" in afterMissing);
    }
  }

  lemma EmailIsNotInherited()
    ensures "email" !in InheritedNames
  {
  }
}
