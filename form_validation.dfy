/**
 * `validateForm` of the student-registration form. The form is given as a
 * snapshot of what the validator reads from the page: the submitted values by
 * field name, the outcome of the browser's own constraint validation, and the
 * elements that the browser marks `:invalid`, in document order.
 */
module FormValidation {
  import opened Optional
  import opened JsString
  import opened EmailPattern
  import opened WordCount
  import opened LabelText

  /** What `FormData.get(name)` returns for an entry that is present. */
  datatype Value = Text(text: string) | File(size: nat)

  /** The element classes `:invalid` can yield; only inputs, selects and text
      areas are inspected. */
  datatype ElementKind = InputElement | SelectElement | TextAreaElement | OtherElement

  /** One element of `form.querySelectorAll(':invalid')`: its class, `name`,
      `type`, the two `validity` flags read, and the text of the
      `<label for=…>` that names it, if there is one. */
  datatype InvalidField = InvalidField(
    kind: ElementKind,
    name: string,
    inputType: string,
    valueMissing: bool,
    typeMismatch: bool,
    labelText: Option<string>)

  /** What the validator reads from the form. `passesNativeValidation` is the
      result of `form.checkValidity()`. */
  datatype FormSnapshot = FormSnapshot(
    values: map<string, Value>,
    passesNativeValidation: bool,
    invalidFields: seq<InvalidField>)

  /** An entry of the required-field table. The source calls the second
      member `label`; here it is `caption`, to keep it apart from the text of
      a `<label>` element that phase 4 reads. */
  datatype FieldSpec = FieldSpec(name: string, caption: string)

  type Errors = map<string, string>

  datatype ValidationResult = ValidationResult(isValid: bool, errors: Errors)

  /** The eleven fields every submission must fill in. */
  const RequiredFields: seq<FieldSpec> := [
    FieldSpec("fullName", "Full Name"),
    FieldSpec("email", "Email ID"),
    FieldSpec("class", "Class"),
    FieldSpec("section", "Section"),
    FieldSpec("school", "School"),
    FieldSpec("city", "City"),
    FieldSpec("schoolAddress", "School Address"),
    FieldSpec("category", "Category"),
    FieldSpec("remarks", "Remarks"),
    FieldSpec("studentPhoto", "Student Photograph"),
    FieldSpec("supportingDocuments", "Supporting Documents")
  ]

  const InvalidEmailMessage := "Please enter a valid email address"
  const TooManyWordsMessage := "Remarks must not exceed 300 words"
  const MaxRemarksWords := 300

  function RequiredMessage(caption: string): string {
    caption + " is required"
  }

  /** The entry under `name`, if any: `formData.get(name)` (which is `null`
      for a name the form did not submit) and a read of `errors`. */
  function Get<V>(entries: map<string, V>, name: string): Option<V> {
    if name in entries then Some(entries[name]) else None
  }

  /** The required-field test: `!value`, a string that trims to nothing, or a
      file of size zero. */
  predicate IsMissing(value: Option<Value>) {
    match value
    case None => true
    case Some(Text(s)) => s == "" || Trim(s) == ""
    case Some(File(size)) => size == 0
  }

  predicate IsFormControl(field: InvalidField) {
    field.kind != OtherElement
  }

  // ---------------------------------------------------------------------
  // The four phases, as functions of the snapshot. `Validate` chains them;
  // the method `ValidateForm` below computes the same result in place.
  // ---------------------------------------------------------------------

  /** Phase 1 over the fields in order: each missing field gets its message. */
  function RequiredPhase(values: map<string, Value>, fields: seq<FieldSpec>): Errors
    decreases |fields|
  {
    if fields == [] then map[]
    else
      var errors := RequiredPhase(values, fields[..|fields| - 1]);
      var field := fields[|fields| - 1];
      if IsMissing(Get(values, field.name)) then errors[field.name := RequiredMessage(field.caption)]
      else errors
  }

  /** Phase 2: a non-empty text e-mail that fails the pattern is reported,
      replacing whatever phase 1 recorded for it. */
  function EmailPhase(values: map<string, Value>, errors: Errors): Errors {
    match Get<Value>(values, "email")
    case Some(Text(email)) =>
      if email != "" && !MatchesEmailPattern(email) then errors["email" := InvalidEmailMessage]
      else errors
    case _ => errors
  }

  /** Phase 3: non-blank text remarks of more than 300 words are reported. */
  function RemarksPhase(values: map<string, Value>, errors: Errors): Errors {
    match Get<Value>(values, "remarks")
    case Some(Text(remarks)) =>
      if remarks != "" && Trim(remarks) != "" && CountWords(remarks) > MaxRemarksWords
      then errors["remarks" := TooManyWordsMessage]
      else errors
    case _ => errors
  }

  /** Phase 4 for one invalid element: a missing value and an e-mail type
      mismatch are reported only where nothing is recorded yet. */
  function FallbackStep(errors: Errors, field: InvalidField): Errors {
    if !IsFormControl(field) then errors
    else
      var afterMissing :=
        if field.valueMissing && field.name !in errors
        then errors[field.name := RequiredMessage(FieldLabel(field.labelText, field.name))]
        else errors;
      if field.typeMismatch && field.inputType == "email" && "email" !in afterMissing
      then afterMissing["email" := InvalidEmailMessage]
      else afterMissing
  }

  /** Phase 4 over the invalid elements in document order. */
  function FallbackPhase(fields: seq<InvalidField>, errors: Errors): Errors {
    if fields == [] then errors
    else FallbackPhase(fields[1..], FallbackStep(errors, fields[0]))
  }

  /** Phases 1 to 3: everything decided from the submitted values alone. */
  function ValueErrors(values: map<string, Value>): Errors {
    RemarksPhase(values, EmailPhase(values, RequiredPhase(values, RequiredFields)))
  }

  function Validate(form: FormSnapshot): ValidationResult {
    var manual := ValueErrors(form.values);
    var errors := if form.passesNativeValidation then manual
                  else FallbackPhase(form.invalidFields, manual);
    ValidationResult(|errors| == 0, errors)
  }

  /** `validateForm`: builds the error dictionary phase by phase, updating it
      in place, and reports the form valid exactly when it stays empty. */
  method ValidateForm(form: FormSnapshot) returns (result: ValidationResult)
    ensures result == Validate(form)
    ensures result.isValid <==> result.errors == map[]
  {
    var errors := CheckRequired(form.values);
    errors := CheckEmail(form.values, errors);
    errors := CheckRemarks(form.values, errors);
    if !form.passesNativeValidation {
      errors := CheckInvalidFields(form.invalidFields, errors);
    }
    result := ValidationResult(|errors| == 0, errors);
  }

  /** The loop over the required fields. */
  method CheckRequired(values: map<string, Value>) returns (errors: Errors)
    ensures errors == RequiredPhase(values, RequiredFields)
  {
    errors := map[];
    for i := 0 to |RequiredFields|
      invariant errors == RequiredPhase(values, RequiredFields[..i])
    {
      var field := RequiredFields[i];
      if IsMissing(Get(values, field.name)) {
        errors := errors[field.name := RequiredMessage(field.caption)];
      }
      assert RequiredFields[..i + 1][..i] == RequiredFields[..i];
    }
    assert RequiredFields[..|RequiredFields|] == RequiredFields;
  }

  /** The e-mail format check. */
  method CheckEmail(values: map<string, Value>, before: Errors) returns (errors: Errors)
    ensures errors == EmailPhase(values, before)
  {
    errors := before;
    var email := Get(values, "email");
    if email.Some? && email.value.Text? && email.value.text != "" {
      if !MatchesEmailPattern(email.value.text) {
        errors := errors["email" := InvalidEmailMessage];
      }
    }
  }

  /** The remarks word limit. */
  method CheckRemarks(values: map<string, Value>, before: Errors) returns (errors: Errors)
    ensures errors == RemarksPhase(values, before)
  {
    errors := before;
    var remarks := Get(values, "remarks");
    if remarks.Some? && remarks.value.Text? && remarks.value.text != "" && Trim(remarks.value.text) != "" {
      var wordCount := CountWords(remarks.value.text);
      if wordCount > MaxRemarksWords {
        errors := errors["remarks" := TooManyWordsMessage];
      }
    }
  }

  /** The loop over the elements the browser reports invalid. */
  method CheckInvalidFields(fields: seq<InvalidField>, before: Errors) returns (errors: Errors)
    ensures errors == FallbackPhase(fields, before)
  {
    errors := before;
    var i := 0;
    while i < |fields|
      invariant 0 <= i <= |fields|
      invariant FallbackPhase(fields[i..], errors) == FallbackPhase(fields, before)
    {
      var field := fields[i];
      if field.kind != OtherElement {
        if field.valueMissing && field.name !in errors {
          errors := errors[field.name := RequiredMessage(FieldLabel(field.labelText, field.name))];
        }
        if field.typeMismatch && field.inputType == "email" && "email" !in errors {
          errors := errors["email" := InvalidEmailMessage];
        }
      }
      assert fields[i..][1..] == fields[i + 1..];
      i := i + 1;
    }
  }

  // ---------------------------------------------------------------------
  // What the phases decide, key by key.
  // ---------------------------------------------------------------------

  /** The caption of the required field called `key`, if any (the last such
      entry, should a name repeat; those of `RequiredFields` do not). */
  function CaptionOf(fields: seq<FieldSpec>, key: string): Option<string>
    decreases |fields|
  {
    if fields == [] then None
    else if fields[|fields| - 1].name == key then Some(fields[|fields| - 1].caption)
    else CaptionOf(fields[..|fields| - 1], key)
  }

  lemma EmailCaption()
    ensures CaptionOf(RequiredFields, "email") == Some("Email ID")
  {
    assert RequiredFields[..2][..1] == [FieldSpec("fullName", "Full Name")];
    CaptionOfFromLast(RequiredFields, 2, "email");
  }

  lemma RemarksCaption()
    ensures CaptionOf(RequiredFields, "remarks") == Some("Remarks")
  {
    CaptionOfFromLast(RequiredFields, 9, "remarks");
  }

  /** Entries after the last one named `key` do not matter. */
  lemma {:induction false} CaptionOfFromLast(fields: seq<FieldSpec>, n: int, key: string)
    requires 0 < n <= |fields| && fields[n - 1].name == key
    requires forall j | n <= j < |fields| :: fields[j].name != key
    ensures CaptionOf(fields, key) == Some(fields[n - 1].caption)
    decreases |fields|
  {
    if n < |fields| {
      CaptionOfFromLast(fields[..|fields| - 1], n, key);
    }
  }

  /** A field is missing exactly when it is absent, blank text, or an empty file. */
  lemma MissingMeansBlank(value: Option<Value>)
    ensures IsMissing(value) <==>
      value == None || (value.value.Text? && AllSpace(value.value.text)) || value == Some(File(0))
  {
  }

  /** Phase 1 records, under the name of each required field and nothing else,
      "<caption> is required" exactly when that field is missing. */
  lemma {:induction false} RequiredPhaseByKey(values: map<string, Value>, fields: seq<FieldSpec>, key: string)
    ensures Get(RequiredPhase(values, fields), key) ==
      match CaptionOf(fields, key)
      case None => None
      case Some(caption) => if IsMissing(Get(values, key)) then Some(RequiredMessage(caption)) else None
    decreases |fields|
  {
    if fields != [] {
      RequiredPhaseByKey(values, fields[..|fields| - 1], key);
    }
  }

  /** The text e-mail the format check rejects. */
  predicate EmailMalformed(values: map<string, Value>) {
    var email := Get(values, "email");
    email.Some? && email.value.Text? && email.value.text != "" && !MatchesEmailPattern(email.value.text)
  }

  /** Non-blank text remarks with more word starts than the limit. */
  predicate RemarksTooLong(values: map<string, Value>) {
    var remarks := Get(values, "remarks");
    remarks.Some? && remarks.value.Text? && !AllSpace(remarks.value.text) &&
    WordStarts(remarks.value.text, true) > MaxRemarksWords
  }

  /** The message phases 1 to 3 leave under `key`, stated by precedence: the
      format and word-limit messages win over the required message. */
  function ExpectedValueError(values: map<string, Value>, key: string): Option<string> {
    if key == "email" && EmailMalformed(values) then Some(InvalidEmailMessage)
    else if key == "remarks" && RemarksTooLong(values) then Some(TooManyWordsMessage)
    else match CaptionOf(RequiredFields, key)
      case None => None
      case Some(caption) => if IsMissing(Get(values, key)) then Some(RequiredMessage(caption)) else None
  }

  lemma {:induction false} EmailPhaseByKey(values: map<string, Value>, errors: Errors, key: string)
    ensures Get(EmailPhase(values, errors), key) ==
      if key == "email" && EmailMalformed(values) then Some(InvalidEmailMessage) else Get(errors, key)
  {
  }

  lemma {:induction false} RemarksPhaseByKey(values: map<string, Value>, errors: Errors, key: string)
    ensures Get(RemarksPhase(values, errors), key) ==
      if key == "remarks" && RemarksTooLong(values) then Some(TooManyWordsMessage) else Get(errors, key)
  {
    match Get<Value>(values, "remarks")
    case Some(Text(remarks)) =>
      TrimEmptyIffBlank(remarks);
      CountWordsIsWordStarts(remarks);
    case _ =>
  }

  /** Phases 1 to 3 together leave exactly the expected message under every key. */
  lemma {:induction false} ValueErrorsByKey(values: map<string, Value>, key: string)
    ensures Get(ValueErrors(values), key) == ExpectedValueError(values, key)
  {
    var required := RequiredPhase(values, RequiredFields);
    RequiredPhaseByKey(values, RequiredFields, key);
    EmailPhaseByKey(values, required, key);
    RemarksPhaseByKey(values, EmailPhase(values, required), key);
  }

  /** What one invalid element would record under `key` if nothing were there. */
  function Contribution(field: InvalidField, key: string): Option<string> {
    if !IsFormControl(field) then None
    else if field.valueMissing && field.name == key then Some(RequiredMessage(FieldLabel(field.labelText, field.name)))
    else if key == "email" && field.typeMismatch && field.inputType == "email" then Some(InvalidEmailMessage)
    else None
  }

  /** The contribution of the first element, in document order, that has one. */
  function FirstContribution(fields: seq<InvalidField>, key: string): Option<string> {
    if fields == [] then None
    else if Contribution(fields[0], key).Some? then Contribution(fields[0], key)
    else FirstContribution(fields[1..], key)
  }

  lemma {:induction false} FallbackStepByKey(errors: Errors, field: InvalidField, key: string)
    ensures Get(FallbackStep(errors, field), key) ==
      if key in errors then Some(errors[key]) else Contribution(field, key)
  {
  }

  /** Phase 4 never overwrites: a key already recorded keeps its message, and
      an unrecorded key gets the message of the first invalid element that has
      one for it. */
  lemma {:induction false} FallbackByKey(fields: seq<InvalidField>, errors: Errors, key: string)
    ensures Get(FallbackPhase(fields, errors), key) ==
      if key in errors then Some(errors[key]) else FirstContribution(fields, key)
    decreases |fields|
  {
    if fields != [] {
      FallbackStepByKey(errors, fields[0], key);
      FallbackByKey(fields[1..], FallbackStep(errors, fields[0]), key);
    }
  }

  /** The whole validator, key by key: the value checks decide first; only
      where they leave nothing, and only when the browser reports the form
      invalid, does the first invalid element's message apply. */
  lemma {:induction false} ValidateByKey(form: FormSnapshot, key: string)
    ensures Get(Validate(form).errors, key) ==
      match ExpectedValueError(form.values, key)
      case Some(message) => Some(message)
      case None => if form.passesNativeValidation then None else FirstContribution(form.invalidFields, key)
  {
    ValueErrorsByKey(form.values, key);
    if !form.passesNativeValidation {
      FallbackByKey(form.invalidFields, ValueErrors(form.values), key);
    }
  }

  // ---------------------------------------------------------------------
  // Consequences.
  // ---------------------------------------------------------------------

  /** The format check is not guarded: a blank but non-empty e-mail text ends
      with the format message, not with "Email ID is required". */
  lemma WhitespaceEmailGetsFormatMessage(form: FormSnapshot, email: string)
    requires Get(form.values, "email") == Some(Text(email))
    requires email != "" && AllSpace(email)
    ensures Get(Validate(form).errors, "email") == Some(InvalidEmailMessage)
  {
    BlankNeverMatches(email);
    ValidateByKey(form, "email");
  }

  /** An empty e-mail text is only "Email ID is required". */
  lemma EmptyEmailIsRequired(form: FormSnapshot)
    requires Get(form.values, "email") == Some(Text(""))
    ensures Get(Validate(form).errors, "email") == Some(RequiredMessage("Email ID"))
  {
    EmailCaption();
    ValidateByKey(form, "email");
  }

  /** Remarks: blank text keeps the required message; otherwise the word
      limit alone decides. */
  lemma {:induction false} RemarksOutcome(values: map<string, Value>, remarks: string)
    requires Get(values, "remarks") == Some(Text(remarks))
    ensures Get(ValueErrors(values), "remarks") ==
      if AllSpace(remarks) then Some(RequiredMessage("Remarks"))
      else if CountWords(remarks) > MaxRemarksWords then Some(TooManyWordsMessage)
      else None
  {
    RemarksCaption();
    ValueErrorsByKey(values, "remarks");
    CountWordsIsWordStarts(remarks);
  }

  /** 300 words pass the limit; 301 words do not. */
  lemma RemarksWordLimit(values: map<string, Value>, n: nat)
    requires Get(values, "remarks") == Some(Text(RepeatedWord(n)))
    requires n == MaxRemarksWords || n == MaxRemarksWords + 1
    ensures "remarks" in ValueErrors(values) <==> n > MaxRemarksWords
  {
    var text := RepeatedWord(n);
    RepeatedWordCount(n);
    assert !AllSpace(text) by {
      assert text[0] == 'w';
    }
    RemarksOutcome(values, text);
  }

  lemma {:induction false} FirstContributionAt(fields: seq<InvalidField>, key: string, i: int)
    requires 0 <= i < |fields| && Contribution(fields[i], key).Some?
    requires forall j | 0 <= j < i :: Contribution(fields[j], key) == None
    ensures FirstContribution(fields, key) == Contribution(fields[i], key)
  {
    if i > 0 {
      FirstContributionAt(fields[1..], key, i - 1);
    }
  }

  /** Among invalid elements with the same name, the first one in document
      order sets the message, using its own label. */
  lemma FirstInvalidFieldWins(fields: seq<InvalidField>, errors: Errors, i: int)
    requires 0 <= i < |fields| && IsFormControl(fields[i]) && fields[i].valueMissing
    requires fields[i].name !in errors
    requires forall j | 0 <= j < i :: Contribution(fields[j], fields[i].name) == None
    ensures Get(FallbackPhase(fields, errors), fields[i].name) ==
      Some(RequiredMessage(FieldLabel(fields[i].labelText, fields[i].name)))
  {
    FirstContributionAt(fields, fields[i].name, i);
    FallbackByKey(fields, errors, fields[i].name);
  }

  lemma {:induction false} FirstContributionFrom(fields: seq<InvalidField>, key: string)
    returns (i: int)
    requires FirstContribution(fields, key).Some?
    ensures 0 <= i < |fields| && FirstContribution(fields, key) == Contribution(fields[i], key)
  {
    if Contribution(fields[0], key).Some? {
      i := 0;
    } else {
      var j := FirstContributionFrom(fields[1..], key);
      i := j + 1;
    }
  }

  lemma {:induction false} CaptionOfIsListed(fields: seq<FieldSpec>, key: string)
    ensures CaptionOf(fields, key).Some? <==> exists f | f in fields :: f.name == key
    decreases |fields|
  {
    if fields != [] {
      var prefix := fields[..|fields| - 1];
      assert fields == prefix + [fields[|fields| - 1]];
      CaptionOfIsListed(prefix, key);
    }
  }

  predicate IsRequiredName(key: string) {
    exists f | f in RequiredFields :: f.name == key
  }

  ghost predicate IsRequiredForm(message: string) {
    exists caption :: message == RequiredMessage(caption)
  }

  /** Every recorded key is a required field's name or the name of an invalid
      element reported missing; when the browser accepts the form, only
      required fields' names occur. */
  lemma {:induction false} ErrorKeysAreKnown(form: FormSnapshot, key: string)
    requires key in Validate(form).errors
    ensures IsRequiredName(key) ||
      (!form.passesNativeValidation &&
       exists i | 0 <= i < |form.invalidFields| ::
         form.invalidFields[i].name == key && form.invalidFields[i].valueMissing)
  {
    if !IsRequiredName(key) {
      OtherKeysHaveNoValueError(form.values, key);
      ValidateByKey(form, key);
      var i := FirstContributionFrom(form.invalidFields, key);
      assert form.invalidFields[i].name == key && form.invalidFields[i].valueMissing;
    }
  }

  /** Phases 1 to 3 write only under required fields' names. */
  lemma {:induction false} OtherKeysHaveNoValueError(values: map<string, Value>, key: string)
    requires !IsRequiredName(key)
    ensures ExpectedValueError(values, key) == None
    ensures key != "email"
  {
    UnlistedKey(key);
  }

  lemma {:induction false} UnlistedKey(key: string)
    requires !IsRequiredName(key)
    ensures CaptionOf(RequiredFields, key) == None && key != "email" && key != "remarks"
  {
    CaptionOfIsListed(RequiredFields, key);
    EmailAndRemarksAreRequired();
  }

  lemma EmailAndRemarksAreRequired()
    ensures IsRequiredName("email") && IsRequiredName("remarks")
  {
    assert RequiredFields[1] in RequiredFields && RequiredFields[8] in RequiredFields;
  }

  /** Every recorded message is a required message, the format message or
      the word-limit message. */
  lemma {:induction false} ErrorMessagesAreKnown(form: FormSnapshot, key: string)
    requires key in Validate(form).errors
    ensures var message := Validate(form).errors[key];
      message == InvalidEmailMessage || message == TooManyWordsMessage || IsRequiredForm(message)
  {
    ValidateByKey(form, key);
    var message := Validate(form).errors[key];
    if ExpectedValueError(form.values, key).Some? {
      if message != InvalidEmailMessage && message != TooManyWordsMessage {
        assert message == RequiredMessage(CaptionOf(RequiredFields, key).value);
      }
    } else {
      var i := FirstContributionFrom(form.invalidFields, key);
      var field := form.invalidFields[i];
      if message != InvalidEmailMessage {
        assert message == RequiredMessage(FieldLabel(field.labelText, field.name));
      }
    }
  }

  /** A submission the browser accepts is valid exactly when every required
      field is filled in, the e-mail passes the format check and the remarks
      keep to the word limit. */
  lemma {:induction false} ValidIffComplete(form: FormSnapshot)
    requires form.passesNativeValidation
    ensures Validate(form).isValid <==>
      (forall f | f in RequiredFields :: !IsMissing(Get(form.values, f.name))) &&
      !EmailMalformed(form.values) && !RemarksTooLong(form.values)
  {
    var errors := Validate(form).errors;
    if Validate(form).isValid {
      assert errors == map[];
      forall f | f in RequiredFields
        ensures !IsMissing(Get(form.values, f.name))
      {
        ValidateByKey(form, f.name);
        CaptionOfIsListed(RequiredFields, f.name);
      }
      ValidateByKey(form, "email");
      ValidateByKey(form, "remarks");
    } else {
      var key :| key in errors;
      ValidateByKey(form, key);
      CaptionOfIsListed(RequiredFields, key);
    }
  }
}
