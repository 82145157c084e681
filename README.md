# Book catalogue REST backend — a Dafny model of its rules

The catalogue is a Django REST Framework service. Users register, obtain a
token and keep a private catalogue of books, tags and authors. This project
models the rules that the service's own code states, over an in-memory store:

- **Users** (`app/core/models.py`). `UserManager.create_user` refuses an empty
  email, normalises the address (the domain after the last `@` is lower-cased),
  hashes the password and keeps the field defaults. `create_superuser` then
  sets both staff flags. The email column is unique. Module `CoreModels`,
  class `UserManager`.
- **Publication years**. `year_choices()` offers the years 1500 to the
  current year, and `current_year()` is the field default. The choices are
  computed once, when the model is loaded. The default is computed when a
  book is created without a year; saving an existing book again keeps its year.
- **String forms**. Tags and authors show as their name, books as their title.
- **User serializers** (`app/user/serializers.py`). Module `UserSerializers`:
  - the `email`, `password` and `name` field checks (trimming, lengths, the
    unique email, `min_length` 5 on the password);
  - registration through `create_user`;
  - the output without the write-only password;
  - `update`, which pops the password before the generic field assignment and
    hashes it only when it is non-empty;
  - `AuthTokenSerializer.validate`, which either refuses with an
    `authentication` error or returns the attributes plus the user.
- **Catalogue serializers** (`app/book/serializers.py`). Module
  `BookSerializers`:
  - `{id, name}` for tags and authors;
  - the eight book fields, with `id` read-only;
  - the resolution of tag and author primary keys against *all* rows, whatever
    their owner;
  - the detail form that nests the related rows.
- **Tag endpoint** (`app/book/views.py`). Module `BookViews`, class
  `OwnedCollection`:
  - an unauthenticated caller is refused;
  - a listing holds exactly the caller's rows, sorted by descending name;
  - a created row is stamped with the caller as owner and appended with the
    next key.

  The author endpoint is tested against the same contract, so the same class
  serves both tables.

Shared pieces:

- `Common` holds `Option`/`Result`, the field names and the error
  vocabulary.
- `Text` holds Python's `str.strip()`, ASCII `lower()`, the search for the
  last occurrence of a character and the code-point order of strings.
  `rsplit('@', 1)` is `CoreModels.SplitLast`, built on that search.
- `Fields` holds the `CharField` rule: required, blank, trim, min and max
  length.

Password hashing is abstract. `Hashed(p)` is what `set_password(p)` stores,
`Unusable` is what `set_password(None)` stores, and `Plain(t)` is a column
assigned the text `t` directly. `check_password(p)` holds only for `Hashed(p)`.
The clock is a parameter: `today` is the creation date, and `loadYear` is the
year in which the model was loaded.

A reader might expect three rules that the code does not enforce. The model
follows the code each time:

- One might expect a book to reference only its owner's tags and authors. It
  can reference anyone's: the related fields resolve against
  `Tag.objects.all()` and `Author.objects.all()` (`ForeignRowAccepted`).
- One might expect the year range to be worked out per request. It is fixed
  when the model loads. So once the calendar year has moved on past the load
  year, an explicit current year is refused, even though it is the field's
  own default (`StaleYearRejected`).
- One might expect `pages` and `price` to be non-negative. No validator
  forbids negative values; `CheckPrice` bounds only the digits.

## Model

| member | source | states |
|---|---|---|
| CoreModels.YearChoices | app/core/models.py:10-12 | one `(r, r)` pair per year from 1500 to the given year, ascending: length and every entry |
| CoreModels.YearChoiceMembership | app/core/models.py:10-12 | a pair is offered iff it is `(y, y)` with 1500 ≤ y ≤ the year the choices were computed |
| CoreModels.CurrentYear | app/core/models.py:15-17 | `current_year()` is today's year, and it is among the choices computed the same day exactly when it is 1500 or later |
| CoreModels.DefaultYearIsAChoice | app/core/models.py:15-17 | `current_year()` is among the choices computed in the same year |
| CoreModels.StaleChoicesOmitCurrentYear | app/core/models.py:95 | choices computed at load time omit the current year once the calendar year is past the load year |
| CoreModels.CheckPassword | app/core/models.py:27 | `check_password` succeeds only on a hashed column, and on one it succeeds exactly for the password that was hashed; an unusable or plain-text column never verifies |
| CoreModels.SetPassword | app/core/models.py:27 | after `set_password(raw)` a password verifies iff it is `raw`; `None` leaves no password that verifies |
| CoreModels.SplitLast | app/core/models.py:26 | `rsplit('@', 1)`: `None` iff there is no '@'; otherwise the text is local + "@" + domain, with no '@' in the domain |
| CoreModels.SplitAddress | app/core/models.py:26 | the same split, applied to the stripped address |
| CoreModels.SplitAddressOf | app/core/models.py:26 | a trimmed `local@domain` whose domain has no '@' splits back into that local part and that domain |
| CoreModels.NormalizeEmail | app/core/models.py:26 | the normalised address is empty iff the input is empty |
| CoreModels.NormalizeEmailParts | app/core/models.py:26 | without '@' the address is returned as given; with '@' the result splits into the same local part and the lower-cased domain |
| CoreModels.NormalizeEmailOf | app/core/models.py:26 | `local@DOMAIN` (trimmed) is normalised to `local@domain`, as in `test@EMAIL.com` → `test@email.com` |
| CoreModels.NormalizeEmailTrimmed | app/core/models.py:26 | normalising keeps an address free of surrounding whitespace |
| CoreModels.NormalizeEmailIdempotent | app/core/models.py:26 | normalising a normalised address changes nothing |
| CoreModels.FindByEmail | app/user/serializers.py:55-59 | `get_by_natural_key`: a row is found iff some row has exactly this email, and the found row has it |
| CoreModels.Authenticate | app/user/serializers.py:55-59 | a user is returned iff some active row has exactly this email and a password that verifies; the returned row is that row |
| CoreModels.UserManager.CreateUser | app/core/models.py:22-30 | a missing or empty email gives `MissingEmail`; a taken normalised email gives `IntegrityViolation`; failures change nothing; success appends one row with the next key, the normalised email, the name, the hashed password, active and not staff or superuser; the unique-email invariant is kept |
| CoreModels.UserManager.Save | app/core/models.py:44 | saving an existing row rewrites exactly that row, unless another row holds its email (`IntegrityViolation`, nothing changes) |
| CoreModels.UserManager.CreateSuperuser | app/core/models.py:32-39 | the `create_user` rules: a missing or empty email gives `MissingEmail`, a taken normalised email `IntegrityViolation`, and failures change nothing; success appends exactly one row with the next key, the normalised email, the empty name, the hashed password, active, staff and superuser |
| CoreModels.NamedStr | app/core/models.py:65-66 | `str(tag)` and `str(author)` are the name |
| CoreModels.BookStr | app/core/models.py:101-102 | `str(book)` is the title |
| Text.Strip | app/user/serializers.py:42 | `trim_whitespace` of a `CharField`: the result has no surrounding whitespace, is no longer than the input, and a trimmed input is unchanged |
| Text.StripRemovesOnlySpace | app/user/serializers.py:42 | the stripped value is a slice `s[i..j]` of the input with only whitespace before `i` and from `j` on: nothing but surrounding whitespace is removed |
| Fields.CheckChar | app/user/serializers.py:42-46 | a `CharField`: an absent value is `Required` only when the field is required; the cleaned value is accepted iff it is an allowed blank, or non-blank, within the length limits and free of the NUL character; otherwise `Blank`, `MaxLength`, `MinLength` or `NullCharacter`, in that order |
| UserSerializers.EmailHeldByOther | app/user/serializers.py:10-13 | the unique validator of `email`: a hit means the address is taken; when creating (no instance) it is exactly "the address is taken" |
| UserSerializers.HeldByOtherSkipsInstance | app/user/serializers.py:10-13 | when updating a row, the address counts as held iff some other row has it: the row being updated is skipped |
| UserSerializers.OwnEmailNotHeldByOther | app/user/serializers.py:22-30 | an update that re-sends the user's own address does not clash with it |
| UserSerializers.CheckEmail | app/user/serializers.py:10-15 | the email passes iff the character checks pass and no other row holds the cleaned address; a failing character check is reported as that error, and a taken address as `Unique` |
| UserSerializers.ValidateUser | app/user/serializers.py:10-15 | the payload is accepted iff the email, password and name checks all pass; it then holds the cleaned values |
| UserSerializers.ValidateUserErrors | app/user/serializers.py:10-15 | a rejection reports exactly the failing fields, each with its own error |
| UserSerializers.ShortPasswordRejected | app/user/serializers.py:15 | a password of 1 to 4 characters is refused with `min_length` 5 |
| UserSerializers.ExistingEmailRejected | app/user/serializers.py:10-15 | an address another row already holds is refused under `email` with `Unique` |
| UserSerializers.ValidatedPassword | app/user/serializers.py:15 | an accepted password is the trimmed input, 5 to 128 characters |
| UserSerializers.FullValidationHasAllFields | app/user/serializers.py:13 | a full (non-partial) validation has all three fields, with a non-empty email and name |
| UserSerializers.UserRepr | app/user/serializers.py:13-15 | the output has exactly the keys `email` and `name`; the password is never output |
| UserSerializers.Register | app/user/serializers.py:17-20 | a rejected payload gives its errors and changes nothing; success appends one active, non-staff row with the normalised email, the trimmed name and the trimmed password hashed; a validated payload succeeds iff its normalised email is free |
| UserSerializers.SetFields | app/user/serializers.py:30 | the generic update assigns each given field and keeps the others; a given password is stored as text |
| UserSerializers.SetFieldsBreaksPassword | app/user/serializers.py:28-30 | without the pop, a given password would leave a column that no password verifies against |
| UserSerializers.ApplyUpdate | app/user/serializers.py:22-37 | the given email and name are set and the others kept; a non-empty password is hashed; an absent or empty password leaves the stored one; the column never holds plain text |
| UserSerializers.ApplyPassword | app/user/serializers.py:33-35 | `if password: set_password(password)`: only the password changes, and only for a non-empty password |
| UserSerializers.Update | app/user/serializers.py:22-37 | a rejected payload gives its errors and changes nothing; a valid one always saves, and the row becomes `ApplyUpdate` of the old row, with every other row unchanged |
| UserSerializers.SaveUpdate | app/user/serializers.py:30-35 | the two saves of `update` succeed and leave the row as `ApplyPassword` of the assigned row |
| UserSerializers.EmailFreeForUpdate | app/user/serializers.py:30 | after validation excluding the row itself, no other row holds the row's new email |
| UserSerializers.ValidateTokenFields | app/user/serializers.py:42-46 | both fields are required and non-blank; the email is trimmed and the password is kept as typed; missing fields give `Required`, an empty password `Blank` |
| UserSerializers.ValidateToken | app/user/serializers.py:48-68 | success iff an active row with this email accepts the password; failure is a `non_field_errors` authentication error; success returns the same attributes plus that user |
| UserSerializers.ObtainToken | app/user/serializers.py:40-68 | field errors are reported as they are; otherwise the outcome is `validate` |
| UserSerializers.LoginAfterRegister | app/user/serializers.py:43-46 | the stored email with the registered password obtains a token iff the password has no surrounding whitespace and no NUL (trimmed on registration, not at login) |
| UserSerializers.TokenFieldsOfTrimmed | app/user/serializers.py:42-46 | a non-empty trimmed email and a non-empty password, neither holding NUL, pass the token fields unchanged |
| UserSerializers.RegisteredEmailShape | app/user/serializers.py:17-20 | a registered address is non-empty and trimmed |
| BookSerializers.NamedRepr | app/book/serializers.py:6-21 | tags and authors serialise to exactly `{id, name}` |
| BookSerializers.ValidateNamed | app/book/serializers.py:6-12 | the name is accepted iff, trimmed, it is non-empty, at most 255 characters and free of NUL; the errors name only `name` (`Required`, `Blank`) |
| BookSerializers.ValidateNamedIgnoresIdAndUser | app/book/serializers.py:12 | the read-only `id` and a `user` in the body have no effect |
| BookSerializers.Lookup | app/book/serializers.py:26-33 | a row is found iff some row, of any owner, has the key |
| BookSerializers.ResolvePks | app/book/serializers.py:26-33 | the keys resolve iff each names a row; then the keys in order; otherwise the first unknown key is reported |
| BookSerializers.Dedup | app/core/models.py:98-99 | the many-to-many set keeps each key once and the same keys |
| BookSerializers.ResolvedKeysSaved | app/book/serializers.py:26-33 | the saved related set is exactly the set of keys sent |
| BookSerializers.ForeignRowAccepted | app/book/serializers.py:26-33 | another owner's row is a valid reference |
| BookSerializers.CheckPages | app/core/models.py:94 | `pages` is a required integer |
| BookSerializers.CheckYear | app/core/models.py:95 | an absent year is left to the default; a given year passes iff it is among the load-time choices, else `InvalidChoice` |
| BookSerializers.CheckPrice | app/core/models.py:96 | the price is required and passes iff it fits five digits with two decimals, else `MaxDigits` |
| BookSerializers.CheckRelated | app/book/serializers.py:26-33 | an absent form list is empty; a given list resolves against the table |
| BookSerializers.ValidateBook | app/book/serializers.py:24-41 | a book is accepted iff every writable field passes, and it then holds their cleaned values; a rejection reports each failing field and never `id` |
| BookSerializers.UnknownTagReported | app/book/serializers.py:30-33 | the first unknown tag key is reported under `tags` |
| BookSerializers.ClientIdIgnored | app/book/serializers.py:41 | a client-supplied `id` does not affect validation |
| BookSerializers.UnknownTagRejected | app/book/serializers.py:30-33 | a tag key that names no row rejects the book |
| BookSerializers.StaleYearRejected | app/core/models.py:95 | after the load year, an explicit current year is refused |
| BookSerializers.MakeBook | app/core/models.py:84-99 | the saved row has the given key and owner, the year default (today's year) and the link default (empty), and the same related keys |
| BookSerializers.CreatedBookMatchesPayload | app/book/serializers.py:24-41 | a book created from an accepted body has its trimmed title, pages, price and year (or today's year), and exactly the sets of tag and author keys sent |
| BookSerializers.PkItems | app/book/serializers.py:26-33 | related rows are rendered as their keys, in order |
| BookSerializers.BookRepr | app/book/serializers.py:24-40 | a book serialises to exactly its eight fields, without the owner; tags and authors as key lists |
| BookSerializers.NestedItems | app/book/serializers.py:47-49 | each related key is rendered as the `{id, name}` record of its row |
| BookSerializers.BookDetailRepr | app/book/serializers.py:44-49 | the detail form has the same fields and values, except that tags and authors are nested records |
| BookSerializers.DetailNestsListedRows | app/book/serializers.py:44-49 | the k-th nested tag's `id` is the k-th key of the plain form |
| BookViews.OwnedBy | app/book/views.py:22 | `filter(user=caller)`: the caller's rows, each as often as in the table, and no other row |
| BookViews.OwnedByAppend | app/book/views.py:22 | a new row joins its owner's filtered rows at the end and no one else's |
| BookViews.Insert | app/book/views.py:22 | inserting into a list sorted by descending name keeps it sorted and adds exactly that row |
| BookViews.SortByNameDesc | app/book/views.py:22 | `order_by('-name')`: sorted by descending name and a permutation of the input |
| BookViews.GetQueryset | app/book/views.py:19-22 | only the caller's rows, all of them, by descending name, as a permutation of the caller's rows |
| BookViews.ListingIgnoresOthersRows | app/book/views.py:19-22 | a row added for another owner leaves the caller's listing exactly as it was (the order among equal names being the model's own) |
| BookViews.ListingIgnoresOthersRowsAsMultiset | app/book/views.py:19-22 | the same, independent of the order of ties: the listing holds the same rows, as often as before |
| BookViews.ListingShowsOwnNewRow | app/book/views.py:24-27 | a row created for the caller appears in the caller's listing, once more than before |
| BookViews.OwnedCollection.List | app/book/views.py:14-22 | refused iff there is no authenticated caller; otherwise exactly the caller's rows, sorted by descending name, a permutation of the caller's rows; nothing changes |
| BookViews.OwnedCollection.Create | app/book/views.py:24-27 | refused without a caller or with an invalid body, changing nothing; otherwise one row is appended with a fresh key, the cleaned name and the caller as owner, whatever the body says |

## Left out

- Email syntax (`EmailValidator` of the `EmailField`) is not checked. Any text is accepted as an address.
- `NormalizeEmail` lower-cases the ASCII letters only. Python's `str.lower()` also folds other letters.
- Fields.CheckChar reports one error per field. The framework can report several messages for one field.
- Password hashing and the authentication backend are abstract relations (`Hashed`, `CheckPassword`, `Authenticate`), not hash functions.
- Token issuance (`Token.objects.get_or_create`) and the token view are not part of this model, nor is the token authentication class.
- HTTP status codes, request parsing and `APIClient` are not modelled. A refusal is `NotAuthenticated`, `Invalid(errors)`, `MissingEmail` or `IntegrityViolation`.
- For the book's related fields, only form-encoded bodies are modelled, where an absent list reads as empty. A JSON body without the list would be refused as required.
- Keys that are not integers ("incorrect type") are not modelled. Neither are prices with more than two decimals, nor the separate `max_whole_digits` code. The price is given in whole hundredths.
- The database's integer range for `pages` and for keys is not modelled. Integers are unbounded.
- `BookImageSerializer` and `book_image_file_path` are not part of this model. The image field is not in the shown `Book` model, and the path depends on a random UUID.
- The book viewset, the book list endpoint (`-id` order) and query-string filtering are not in the shown code, so they are not modelled. `BookSerializers.MakeBook` models what the serializer saves, with the owner supplied by the caller.
- `AuthorViewSet` is referenced by the URL configuration but not defined. The tag viewset's class `BookViews.OwnedCollection` stands for both tables.
- The admin site and the URL routing are configuration only.
- Database persistence, transactions and concurrent requests are not modelled. Each call runs alone on an in-memory table.
- BookSerializers.Dedup keeps related keys in order of first appearance, and `PkItems`, `BookRepr` and `NestedItems` list them in that order. The database's many-to-many set promises no order, so the model fixes one that the source does not.
- BookViews.SortByNameDesc orders names by code point, as Python compares strings. A database collation may order them differently. The order of equal names is left open.
