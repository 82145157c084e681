/** Shared result types and the error vocabulary of the REST layer. */
module Common {

  datatype Option<+T> = None | Some(value: T)

  datatype Result<+T, +E> = Success(value: T) | Failure(error: E)

  /** Why one field of a request was rejected (the per-field error codes a
      serializer reports). */
  datatype FieldError =
    | Required               // the field is mandatory and was not sent
    | Blank                  // empty, or only whitespace, where that is not allowed
    | MaxLength(limit: nat)  // longer than the field's max_length
    | MinLength(limit: nat)  // shorter than the field's min_length
    | NullCharacter          // holds the character U+0000
    | Unique                 // another row already holds this value
    | InvalidChoice(v: int)  // not one of the field's choices
    | MaxDigits              // more digits than max_digits / decimal_places allow
    | DoesNotExist(pk: int)  // a related primary key names no row
    | AuthenticationFailed   // the credentials did not authenticate (non-field error)

  /** The names of the fields of the request bodies and representations;
  `NonFieldErrors` is the key of errors that belong to no single field. */
  datatype FieldName =
    | EmailField | PasswordField | NameField | NonFieldErrors
    | IdField | TitleField | PagesField | YearField | TagsField | AuthorsField | PriceField | LinkField
    | UserField

  /** Field name to the error reported for it; all failing fields are reported together. */
  type Errors = map<FieldName, FieldError>

  /** How a request or a manager call can fail. */
  datatype ApiError =
    | NotAuthenticated     // no authenticated caller (IsAuthenticated refused the request)
    | Invalid(errors: Errors)  // the serializer rejected the payload
    | MissingEmail         // UserManager.create_user raised ValueError
    | IntegrityViolation   // the database refused the row (unique email)

  /** The error of a failed check. */
  function Problem<T>(r: Result<T, FieldError>): (e: Option<FieldError>)
    ensures e.Some? <==> r.Failure?
    ensures r.Failure? ==> e.value == r.error
  {
    if r.Failure? then Some(r.error) else None
  }

  /** The errors a serializer reports: one per field whose check failed. */
  function Reported(checks: map<FieldName, Option<FieldError>>): (m: Errors)
    ensures forall f :: f in m <==> f in checks && checks[f].Some?
    ensures forall f :: f in m ==> m[f] == checks[f].value
  {
    map f | f in checks && checks[f].Some? :: checks[f].value
  }
}
