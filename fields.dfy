/** The validation rule every text field of the serializers follows: a
    character field with `required`, `allow_blank`, `trim_whitespace`,
    `min_length` and `max_length` options. */
module Fields {
  import opened Common
  import opened Text

  /** The options of one character field; `maxLength` is `None` for a field
      without a length limit. */
  datatype CharRule = CharRule(required: bool, allowBlank: bool, trim: bool, minLength: nat, maxLength: Option<nat>)

  /** A model `CharField(max_length=255)` as its serializer field: required,
      not blank, trimmed, at most 255 characters. */
  const ModelCharRule := CharRule(required := true, allowBlank := false, trim := true, minLength := 0, maxLength := Some(255))

  predicate TooLong(rule: CharRule, v: string) {
    rule.maxLength.Some? && |v| > rule.maxLength.value
  }

  /** The value the field keeps from a raw input. */
  function Cleaned(rule: CharRule, raw: string): string {
    if rule.trim then Strip(raw) else raw
  }

  /** Validates one character field. `Success(None)` means the field was
      not sent and is not required, so the model's default applies.
      Blank input is decided before the validators run, so an allowed blank
      value skips them; the validators are `max_length`, `min_length` and the
      ban on the NUL character, and the first that fails is reported. */
  function CheckChar(rule: CharRule, raw: Option<string>): (r: Result<Option<string>, FieldError>)
    ensures raw.None? ==> r == (if rule.required then Failure(Required) else Success(None))
    ensures raw.Some? ==>
      var v := Cleaned(rule, raw.value);
      && (r == Success(Some(v)) <==>
            || (v == "" && rule.allowBlank)
            || (v != "" && !TooLong(rule, v) && rule.minLength <= |v| && '\0' !in v))
      && (v == "" && !rule.allowBlank ==> r == Failure(Blank))
      && (v != "" && TooLong(rule, v) ==> r == Failure(MaxLength(rule.maxLength.value)))
      && (v != "" && !TooLong(rule, v) && |v| < rule.minLength ==> r == Failure(MinLength(rule.minLength)))
      && (v != "" && !TooLong(rule, v) && rule.minLength <= |v| && '\0' in v ==> r == Failure(NullCharacter))
    ensures r.Success? ==> r.value.None? == raw.None?
  {
    match raw
    case None => if rule.required then Failure(Required) else Success(None)
    case Some(s) =>
      var v := Cleaned(rule, s);
      if v == "" then (if rule.allowBlank then Success(Some("")) else Failure(Blank))
      else if TooLong(rule, v) then Failure(MaxLength(rule.maxLength.value))
      else if |v| < rule.minLength then Failure(MinLength(rule.minLength))
      else if '\0' in v then Failure(NullCharacter)
      else Success(Some(v))
  }
}
