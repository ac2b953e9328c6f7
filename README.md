# Student-registration form validator

A Dafny model of `validateForm` (`src/lib/formValidation.ts`), the check a
student-registration page runs before it submits. The validator fills an
`errors` dictionary (field name to message) in four phases and reports the
form valid exactly when the dictionary stays empty:

1. every one of eleven required fields that is absent, blank text or an empty
   file gets "`<caption>` is required";
2. a non-empty text e-mail that fails `/^[^\s@]+@[^\s@]+\.[^\s@]+$/` gets
   "Please enter a valid email address", overwriting phase 1;
3. non-blank remarks of more than 300 words get "Remarks must not exceed 300
   words";
4. when the browser's own constraint check fails, each invalid input, select
   or textarea, in document order, adds "`<label>` is required" for a missing
   value and the e-mail message for an e-mail type mismatch, but never over a
   message that is already there. The label is the text of the field's
   `<label>` with a trailing `*` marker removed, or the field's name.

The browser is replaced by a snapshot (`FormValidation.FormSnapshot`): the
submitted values by name (absent, text, or a file with its size), whether the
native check passes, and the invalid elements in document order with their
kind, name, type, `valueMissing` and `typeMismatch` flags and label text.

Modules:

- `JsString` — the ECMAScript white-space set (what `\s` matches and what
  `trim` removes) and `trimStart`, `trimEnd`, `trim`;
- `EmailPattern` — the e-mail pattern as a predicate, proved equal to a
  clause-by-clause description of the accepted shape;
- `WordCount` — `trim().split(/\s+/).filter(w => w.length > 0).length`,
  proved equal to an independent count of word starts;
- `LabelText` — the `*`-marker strip and the label fallback;
- `FormValidation` — the phases as functions, the validator as a method with
  the source's two loops (proved equal to those functions), and key-by-key
  statements of what ends up in `errors`;
- `PrototypeGuard` — the fallback's `!errors[field.name]` guard as JavaScript
  evaluates it on `{}` (see Findings).

The e-mail format write at `src/lib/formValidation.ts:54-57` has no guard,
unlike the writes at lines 82 and 88: it runs for every non-empty text value
and replaces a phase-1 message, so a blank but non-empty e-mail ends with the
format message.

## Model

| member | source | states |
|---|---|---|
| FormValidation.Get | src/lib/formValidation.ts:42 | the entry under a name, absent when there is none, as `formData.get` returns `null` |
| FormValidation.RequiredMessage | src/lib/formValidation.ts:48 | the message "`<caption>` is required", also used with the derived label at line 86 |
| FormValidation.IsFormControl | src/lib/formValidation.ts:77-81 | the element is an input, a select or a textarea |
| FormValidation.IsMissing | src/lib/formValidation.ts:43-47 | the required-field test: absent, text that trims to nothing, or a zero-size file |
| FormValidation.RequiredPhase | src/lib/formValidation.ts:41-50 | phase 1 over a prefix of the required list, one field at a time |
| FormValidation.EmailPhase | src/lib/formValidation.ts:53-59 | phase 2: the format message for a non-empty text failing the pattern |
| FormValidation.RemarksPhase | src/lib/formValidation.ts:62-71 | phase 3: the word-limit message for non-blank text counting more than 300 words |
| FormValidation.FallbackStep | src/lib/formValidation.ts:77-91 | one invalid element of phase 4, with the own-entry guards |
| FormValidation.FallbackPhase | src/lib/formValidation.ts:74-93 | phase 4 over the invalid elements in document order |
| FormValidation.ValueErrors | src/lib/formValidation.ts:41-71 | phases 1 to 3 in order |
| FormValidation.Validate | src/lib/formValidation.ts:23-98 | the four phases, phase 4 only when the native check fails, and validity as an empty dictionary |
| FormValidation.ValidateForm | src/lib/formValidation.ts:19-99 | the result is the phase-by-phase `Validate` of the snapshot, and `isValid` holds exactly when `errors` is empty |
| FormValidation.CheckRequired | src/lib/formValidation.ts:41-50 | the loop over the eleven required fields leaves exactly phase 1's dictionary |
| FormValidation.CheckEmail | src/lib/formValidation.ts:53-59 | the e-mail step leaves phase 2 applied to what phase 1 left |
| FormValidation.CheckRemarks | src/lib/formValidation.ts:62-71 | the remarks step leaves phase 3 applied to what phase 2 left |
| FormValidation.CheckInvalidFields | src/lib/formValidation.ts:74-93 | the loop over the invalid elements leaves phase 4 applied in document order |
| FormValidation.MissingMeansBlank | src/lib/formValidation.ts:43-47 | a value counts as missing exactly when it is absent, text made only of white space (or empty), or a zero-size file |
| FormValidation.RequiredPhaseByKey | src/lib/formValidation.ts:27-50 | phase 1 writes only under listed names, and under such a name "`<caption>` is required" exactly when the value is missing |
| FormValidation.EmailCaption | src/lib/formValidation.ts:29 | the e-mail field's caption is "Email ID" |
| FormValidation.RemarksCaption | src/lib/formValidation.ts:36 | the remarks field's caption is "Remarks" |
| FormValidation.CaptionOfIsListed | src/lib/formValidation.ts:27-39 | a key has a caption exactly when some listed field carries that name |
| FormValidation.EmailAndRemarksAreRequired | src/lib/formValidation.ts:29-36 | "email" and "remarks" are among the required names |
| FormValidation.EmailPhaseByKey | src/lib/formValidation.ts:53-59 | phase 2 changes only the "email" entry, setting the format message exactly for a non-empty text that fails the pattern |
| FormValidation.RemarksPhaseByKey | src/lib/formValidation.ts:62-71 | phase 3 changes only the "remarks" entry, setting the word-limit message exactly for non-blank text with more than 300 word starts |
| FormValidation.ValueErrorsByKey | src/lib/formValidation.ts:41-71 | after phases 1 to 3 each key holds the expected message by precedence: format and word-limit messages over the required message |
| FormValidation.FallbackStepByKey | src/lib/formValidation.ts:76-91 | one invalid element leaves every recorded key unchanged and adds to an unrecorded key only its own contribution |
| FormValidation.FallbackByKey | src/lib/formValidation.ts:76-92 | phase 4 never overwrites: a recorded key keeps its message, an unrecorded key gets the first contribution in document order |
| FormValidation.ValidateByKey | src/lib/formValidation.ts:41-98 | the whole validator key by key: the value checks decide first, and only where they leave nothing and the native check fails does the first invalid element's message apply |
| FormValidation.WhitespaceEmailGetsFormatMessage | src/lib/formValidation.ts:43-57 | a blank non-empty e-mail text ends with the format message, not "Email ID is required" |
| FormValidation.EmptyEmailIsRequired | src/lib/formValidation.ts:41-59 | an empty e-mail text ends with "Email ID is required" only |
| FormValidation.RemarksOutcome | src/lib/formValidation.ts:41-71 | blank remarks keep "Remarks is required"; otherwise the word limit alone decides the remarks entry |
| FormValidation.RemarksWordLimit | src/lib/formValidation.ts:62-71 | 300 words leave no remarks entry, 301 words set one |
| FormValidation.FirstInvalidFieldWins | src/lib/formValidation.ts:76-87 | among invalid elements with one name, the first in document order sets the message, with its own label |
| FormValidation.ErrorKeysAreKnown | src/lib/formValidation.ts:41-93 | every key is a required field's name or the name of an invalid element reported missing, and only the former when the native check passes |
| FormValidation.OtherKeysHaveNoValueError | src/lib/formValidation.ts:27-71 | phases 1 to 3 write nothing under a name outside the required list |
| FormValidation.ErrorMessagesAreKnown | src/lib/formValidation.ts:41-93 | every message is the format message, the word-limit message or a "… is required" message |
| FormValidation.ValidIffComplete | src/lib/formValidation.ts:41-98 | when the native check passes, the form is valid exactly when no required field is missing, the e-mail is not malformed and the remarks keep to the limit |
| EmailPattern.MatchesEmailPattern | src/lib/formValidation.ts:55-56 | the anchored pattern: a split at an `@` and a later `.` into three non-empty runs of characters other than white space and `@` |
| EmailPattern.EmailPatternShape | src/lib/formValidation.ts:55-56 | the pattern accepts exactly the strings with no white space, one `@` after a non-empty local part, and a domain holding a `.` with a character on either side |
| EmailPattern.AcceptedExamples | src/lib/formValidation.ts:55-56 | "a@b.co" and "a@b.c.d" match |
| EmailPattern.DotAtDomainEndRejected | src/lib/formValidation.ts:55-56 | "a@b." does not match |
| EmailPattern.DotAtDomainStartRejected | src/lib/formValidation.ts:55-56 | "a@.b" does not match |
| EmailPattern.MissingAtRejected | src/lib/formValidation.ts:55-56 | "not-an-email" does not match |
| EmailPattern.SecondAtRejected | src/lib/formValidation.ts:55-56 | "a@b@c.d" does not match |
| EmailPattern.InnerSpaceRejected | src/lib/formValidation.ts:55-56 | "a b@c.d" does not match |
| EmailPattern.BlankNeverMatches | src/lib/formValidation.ts:55-56 | no blank string matches |
| JsString.IsSpace | src/lib/formValidation.ts:45 | the ECMAScript white-space and line-terminator characters: what `\s` matches and what `trim` removes |
| JsString.TrimStart | src/lib/formValidation.ts:45 | the result is the suffix after a blank prefix and does not start with white space |
| JsString.TrimEnd | src/lib/formValidation.ts:45 | the result is the prefix before a blank suffix and does not end with white space |
| JsString.Trim | src/lib/formValidation.ts:45 | the result neither starts nor ends with white space |
| JsString.TrimEmptyIffBlank | src/lib/formValidation.ts:45 | `trim` leaves nothing exactly when the text is blank |
| JsString.TrimPieces | src/lib/formValidation.ts:45 | the text is a blank prefix, the trimmed text and a blank suffix |
| JsString.TrimOfPadded | src/lib/formValidation.ts:45 | any core between blank padding, with no white space at its ends, is what `trim` returns |
| JsString.TrimAfterTrimEnd | src/lib/formValidation.ts:85 | `trim` after `trimEnd` is `trim` |
| WordCount.CountWords | src/lib/formValidation.ts:64-67 | trim, split on white-space runs, drop empty pieces, count |
| WordCount.SplitOnWhitespace | src/lib/formValidation.ts:66 | the split yields at least one piece and no piece holds white space |
| WordCount.NonEmpty | src/lib/formValidation.ts:67 | the filter keeps only non-empty pieces of its input |
| WordCount.SplitCountsWordStarts | src/lib/formValidation.ts:66-67 | the non-empty pieces of the split are as many as the word starts |
| WordCount.CountWordsIsWordStarts | src/lib/formValidation.ts:64-67 | the remarks count equals the number of non-space characters at the start or after white space |
| WordCount.RepeatedWordCount | src/lib/formValidation.ts:64-67 | `n` words, each followed by one space, count as `n` |
| LabelText.StripMarker | src/lib/formValidation.ts:85 | `replace(/\s*\*\s*$/, '')`: cut a trailing `*` and the white space around it |
| LabelText.FieldLabel | src/lib/formValidation.ts:83-85 | the label is the field's name or a non-empty text with no white space at either end |
| LabelText.StripMarkerCutsAtFirstMatch | src/lib/formValidation.ts:85 | the marker strip cuts the text at the leftmost position where white space, one `*` and white space run to the end, and leaves it whole when there is none |
| LabelText.MarkedLabel | src/lib/formValidation.ts:83-86 | a label ending in the marker shows the trimmed rest, or the field's name when the rest is blank |
| LabelText.UnmarkedLabel | src/lib/formValidation.ts:83-86 | a label without the marker is only trimmed, or gives way to the name when blank |
| LabelText.MarkedLabelExample | src/lib/formValidation.ts:85 | "Full Name *" is shown as "Full Name" |
| LabelText.BareMarkerExample | src/lib/formValidation.ts:85 | a label "  *  " gives way to the field's name |
| LabelText.PlainLabelExample | src/lib/formValidation.ts:85 | "Class" is kept as it is |
| PrototypeGuard.ReadsAsPresent | src/lib/formValidation.ts:82-88 | `errors[name]` is truthy on an object made as `{}`: a stored message or a member inherited from `Object.prototype` |
| PrototypeGuard.FallbackStepAsWritten | src/lib/formValidation.ts:77-91 | one invalid element of phase 4 with the guards as written, where inherited names read as present |
| PrototypeGuard.FallbackPhaseAsWritten | src/lib/formValidation.ts:76-92 | phase 4 as written, in document order |
| PrototypeGuard.InheritedNameHidesMissingField | src/lib/formValidation.ts:82 | as written, a missing element named "constructor" records nothing; with an own-entry guard it gets its message |
| PrototypeGuard.GuardsAgreeOffPrototype | src/lib/formValidation.ts:82-89 | the written guard and the own-entry guard agree whenever no invalid element carries an inherited name |

## Left out

- `src/lib/error.ts` is not part of this model: it only declares an error class that sets its name.
- The `FormData` interface at `src/lib/formValidation.ts:1-13` is a type declaration the validator never uses.
- The browser: `new FormData(form)`, `checkValidity()`, `querySelectorAll(':invalid')`, the `label[for=…]` lookup by the element's id and the `instanceof` tests become fields of the snapshot; the `invalid` events that `checkValidity()` fires are not modelled.
- FormValidation.ValidateForm: phase 4 uses an own-entry guard (`name !in errors`), not the lookup through `Object.prototype` that `!errors[field.name]` and `!errors.email` perform at lines 82 and 88; for an invalid required element named after an inherited member (`constructor`, `toString`, …) the model records a message where the code does not. `PrototypeGuard.FallbackStepAsWritten` and `PrototypeGuard.FallbackPhaseAsWritten` carry the code as written, and `PrototypeGuard.GuardsAgreeOffPrototype` proves the two agree for every other name (see Findings).
- FormValidation.ValidateForm: the label lookup at line 83 builds the selector `label[for="…"]` from the element's id; an id holding `"` (or otherwise breaking the selector) makes `querySelector` throw, so `validateForm` throws, while the snapshot's label text cannot fail. That exception path is not modelled.
- `FormData.get` returns the first of several entries with one name; the snapshot holds one value per name.
- The insertion order of keys in `errors` is not modelled: the dictionary is a map.
- JavaScript strings are sequences of UTF-16 code units; the model uses characters. The white-space set lies in the Basic Multilingual Plane, so only strings with surrogate pairs could differ.
- The general regular-expression engine is not modelled: the three patterns the validator uses (the e-mail pattern, `\s+` in the split and the `\s*\*\s*$` label marker) are written out as predicates and functions.

## Findings

| source | as written | input that shows it | evidently intended | confidence | as-written member | corrected member |
|---|---|---|---|---|---|---|
| src/lib/formValidation.ts:82 | `!errors[field.name]` reads `errors`, created as `{}`, through its prototype, so a name inherited from `Object.prototype` counts as already recorded | an invalid required input named `constructor` with `valueMissing` and nothing else wrong: no message is recorded and the form is reported valid | a missing value is reported unless the dictionary itself already holds that name | low; not executed | PrototypeGuard.InheritedNameHidesMissingField | FormValidation.FallbackByKey |
