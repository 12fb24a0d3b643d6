/** The validators on the form's `source` and `message` controls: those the
    controls declare (src/app/app.component.ts:100-101) and the
    `maxlength` validator that the template's `[maxlength]="60"` binding
    adds to both inputs (lines 34 and 41). */
module Form {

  /** The bound `Validators.maxLength(64)` declares on the message control. */
  const MESSAGE_MAX_LENGTH: nat := 64

  /** The bound the template binds on both inputs. */
  const INPUT_MAX_LENGTH: nat := 60

  /** The value under an error key: `required: true` or
      `maxlength: { requiredLength, actualLength }`. */
  datatype ErrorValue = RequiredError | MaxLengthError(requiredLength: nat, actualLength: nat)

  /** A control's error object, from error key to value; a valid control
      has none. */
  type ValidationErrors = map<string, ErrorValue>

  /** `Validators.required`: an empty string is missing. */
  function RequiredErrors(value: string): (errors: ValidationErrors)
    ensures "required" in errors <==> value == ""
    ensures errors.Keys <= {"required"}
    ensures errors == map[] <==> value != ""
  {
    if value == "" then map["required" := RequiredError] else map[]
  }

  /** `Validators.maxLength(max)`: only a value longer than `max` fails; an
      empty value is left to `required`. */
  function MaxLengthErrors(max: nat, value: string): (errors: ValidationErrors)
    ensures "maxlength" in errors <==> |value| > max
    ensures errors.Keys <= {"maxlength"}
    ensures errors == map[] <==> |value| <= max
  {
    if |value| > max then map["maxlength" := MaxLengthError(max, |value|)] else map[]
  }

  /** Angular merges the error objects of a control's validators in order,
      a later one overwriting an earlier one under the same key; the
      template's validators come after those the control declares. */
  function Merge(earlier: ValidationErrors, later: ValidationErrors): (merged: ValidationErrors)
    ensures merged.Keys == earlier.Keys + later.Keys
    ensures forall key :: key in merged ==> merged[key] == if key in later then later[key] else earlier[key]
    ensures merged == map[] <==> earlier == map[] && later == map[]
  {
    var merged := earlier + later;
    assert earlier != map[] ==> exists key :: key in earlier;
    assert later != map[] ==> exists key :: key in later;
    merged
  }

  /** The `source` control's errors: the declared `required`, then the
      template's `maxlength` of 60. The start button is enabled exactly for
      addresses of 1 to 60 characters. */
  function SourceErrors(source: string): (errors: ValidationErrors)
    ensures errors == map[] <==> 0 < |source| <= INPUT_MAX_LENGTH
    ensures "required" in errors <==> source == ""
    ensures "maxlength" in errors <==> |source| > INPUT_MAX_LENGTH
    ensures "maxlength" in errors ==> errors["maxlength"] == MaxLengthError(INPUT_MAX_LENGTH, |source|)
    ensures errors.Keys <= {"required", "maxlength"}
  {
    Merge(RequiredErrors(source), MaxLengthErrors(INPUT_MAX_LENGTH, source))
  }

  /** The errors of the two validators the `message` control declares,
      taken alone: valid exactly for messages of 1 to 64 characters. */
  function DeclaredMessageErrors(message: string): (errors: ValidationErrors)
    ensures errors == map[] <==> 0 < |message| <= MESSAGE_MAX_LENGTH
    ensures "required" in errors <==> message == ""
    ensures "maxlength" in errors <==> |message| > MESSAGE_MAX_LENGTH
    ensures "maxlength" in errors ==> errors["maxlength"] == MaxLengthError(MESSAGE_MAX_LENGTH, |message|)
  {
    Merge(RequiredErrors(message), MaxLengthErrors(MESSAGE_MAX_LENGTH, message))
  }

  /** The `message` control's errors with the template's validator merged
      last: the tighter bound of 60 decides validity, and a `maxlength`
      error always reports 60, never the declared 64. */
  function MessageErrors(message: string): (errors: ValidationErrors)
    ensures errors == map[] <==> 0 < |message| <= INPUT_MAX_LENGTH
    ensures "required" in errors <==> message == ""
    ensures "maxlength" in errors <==> |message| > INPUT_MAX_LENGTH
    ensures "maxlength" in errors ==> errors["maxlength"] == MaxLengthError(INPUT_MAX_LENGTH, |message|)
    ensures errors.Keys <= {"required", "maxlength"}
  {
    Merge(DeclaredMessageErrors(message), MaxLengthErrors(INPUT_MAX_LENGTH, message))
  }
}
