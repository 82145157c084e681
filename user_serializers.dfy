/** The user endpoints' serializers (app/user/serializers.py): validation of
    the `email`, `password` and `name` fields of `UserSerializer`, its `create`
    and `update`, the output without the password, and `AuthTokenSerializer`. */
module UserSerializers {
  import opened Common
  import opened Text
  import opened Fields
  import opened CoreModels

  /** `email`: the model's `EmailField(max_length=255, unique=True)`; the
      character rules are those of a 255-character field, and the unique
      validator is `CheckEmail`'s. */
  const EmailRule := ModelCharRule
  /** `password`: the model's 128-character column with `min_length: 5`. */
  const PasswordRule := ModelCharRule.(minLength := 5, maxLength := Some(128))

  /** The `email`, `password` and `name` of a request body, each possibly
      absent; after validation, the cleaned values of the fields sent. */
  datatype UserFields = UserFields(email: Option<string>, password: Option<string>, name: Option<string>)

  /** The unique validator of `email`: a row other than `instance` already
      holds exactly `email`. Without an instance (creation) this is the
      plain uniqueness test. */
  predicate EmailHeldByOther(users: seq<User>, email: string, instance: Option<UserId>): (held: bool)
    ensures held ==> EmailTaken(users, email)
    ensures instance.None? ==> (held <==> EmailTaken(users, email))
  {
    exists i :: 0 <= i < |users| && users[i].email == email && instance != Some(users[i].id)
  }

  /** When updating row `i`, the validator looks at every row but that one:
      the address is held by another exactly when a different row has it. */
  lemma HeldByOtherSkipsInstance(users: seq<User>, i: nat, email: string)
    requires IncreasingIds(users) && i < |users|
    ensures EmailHeldByOther(users, email, Some(users[i].id))
      <==> exists k :: 0 <= k < |users| && k != i && users[k].email == email
  {
    if EmailHeldByOther(users, email, Some(users[i].id)) {
      var k :| 0 <= k < |users| && users[k].email == email && Some(users[i].id) != Some(users[k].id);
      assert k != i;
    }
    if exists k :: 0 <= k < |users| && k != i && users[k].email == email {
      var k :| 0 <= k < |users| && k != i && users[k].email == email;
      assert users[k].id != users[i].id by {
        if k < i { assert users[k].id < users[i].id; } else { assert users[i].id < users[k].id; }
      }
    }
  }

  /** Re-sending a user's own address in an update is not a clash. */
  lemma OwnEmailNotHeldByOther(users: seq<User>, i: nat)
    requires UniqueEmails(users) && i < |users|
    ensures !EmailHeldByOther(users, users[i].email, Some(users[i].id))
  {
  }

  /** A partial update (`PATCH`) skips the `required` check. */
  function Rule(rule: CharRule, partial: bool): CharRule {
    rule.(required := rule.required && !partial)
  }

  /** The `email` field: the character checks, then the unique validator,
      which looks for the cleaned value among the other rows. */
  function CheckEmail(users: seq<User>, raw: Option<string>, instance: Option<UserId>, partial: bool): (r: Result<Option<string>, FieldError>)
    ensures r.Success? <==> (CheckChar(Rule(EmailRule, partial), raw).Success?
      && (raw.Some? ==> !EmailHeldByOther(users, Strip(raw.value), instance)))
    ensures r.Success? ==> r == CheckChar(Rule(EmailRule, partial), raw)
    ensures CheckChar(Rule(EmailRule, partial), raw).Success? && r.Failure? ==> r.error == Unique
    ensures CheckChar(Rule(EmailRule, partial), raw).Failure? ==> r == CheckChar(Rule(EmailRule, partial), raw)
  {
    var c := CheckChar(Rule(EmailRule, partial), raw);
    if c.Success? && c.value.Some? && EmailHeldByOther(users, c.value.value, instance) then Failure(Unique) else c
  }

  /** `is_valid()` of `UserSerializer`: every field is checked and every
      failing field is reported. `instance` is the row being updated. */
  function ValidateUser(users: seq<User>, p: UserFields, instance: Option<UserId>, partial: bool): (r: Result<UserFields, Errors>)
    ensures var e, pw, n := CheckEmail(users, p.email, instance, partial),
                           CheckChar(Rule(PasswordRule, partial), p.password),
                           CheckChar(Rule(ModelCharRule, partial), p.name);
      && (r.Success? <==> e.Success? && pw.Success? && n.Success?)
      && (r.Success? ==> r.value == UserFields(e.value, pw.value, n.value))
  {
    var e := CheckEmail(users, p.email, instance, partial);
    var pw := CheckChar(Rule(PasswordRule, partial), p.password);
    var n := CheckChar(Rule(ModelCharRule, partial), p.name);
    if e.Success? && pw.Success? && n.Success? then Success(UserFields(e.value, pw.value, n.value))
    else Failure(Reported(map[EmailField := Problem(e), PasswordField := Problem(pw), NameField := Problem(n)]))
  }

  /** A rejected payload reports exactly the failing fields, each with its
      own error. */
  lemma ValidateUserErrors(users: seq<User>, p: UserFields, instance: Option<UserId>, partial: bool)
    requires ValidateUser(users, p, instance, partial).Failure?
    ensures var r, e, pw, n := ValidateUser(users, p, instance, partial),
                              CheckEmail(users, p.email, instance, partial),
                              CheckChar(Rule(PasswordRule, partial), p.password),
                              CheckChar(Rule(ModelCharRule, partial), p.name);
      && r.error.Keys <= {EmailField, PasswordField, NameField}
      && (EmailField in r.error <==> e.Failure?) && (e.Failure? ==> r.error[EmailField] == e.error)
      && (PasswordField in r.error <==> pw.Failure?) && (pw.Failure? ==> r.error[PasswordField] == pw.error)
      && (NameField in r.error <==> n.Failure?) && (n.Failure? ==> r.error[NameField] == n.error)
  {
  }

  /** A password of one to four characters (after trimming) is refused with
      `min_length`, whatever the other fields hold. */
  lemma ShortPasswordRejected(users: seq<User>, p: UserFields, instance: Option<UserId>, partial: bool)
    requires p.password.Some? && 0 < |Strip(p.password.value)| < PasswordRule.minLength
    ensures var r := ValidateUser(users, p, instance, partial);
      r.Failure? && PasswordField in r.error && r.error[PasswordField] == MinLength(PasswordRule.minLength)
  {
    ValidateUserErrors(users, p, instance, partial);
  }

  /** Registering an address some row already holds, exactly as sent after
      trimming, is refused under `email` with the unique error. */
  lemma ExistingEmailRejected(users: seq<User>, p: UserFields, partial: bool)
    requires p.email.Some? && CheckChar(Rule(EmailRule, partial), p.email).Success?
    requires EmailTaken(users, Strip(p.email.value))
    ensures var r := ValidateUser(users, p, None, partial);
      r.Failure? && EmailField in r.error && r.error[EmailField] == Unique
  {
    var i :| 0 <= i < |users| && users[i].email == Strip(p.email.value);
    assert EmailHeldByOther(users, Strip(p.email.value), None);
    ValidateUserErrors(users, p, None, partial);
  }

  /** Every validated password is the trimmed input, 5 to 128 characters long. */
  lemma ValidatedPassword(users: seq<User>, p: UserFields, instance: Option<UserId>, partial: bool)
    requires ValidateUser(users, p, instance, partial).Success?
    ensures var v := ValidateUser(users, p, instance, partial).value;
      v.password.Some? <==> p.password.Some?
    ensures var v := ValidateUser(users, p, instance, partial).value;
      v.password.Some? ==> v.password.value == Strip(p.password.value) && PasswordRule.minLength <= |v.password.value| <= 128
  {
  }

  /** A full (non-partial) validation has all three fields. */
  lemma FullValidationHasAllFields(users: seq<User>, p: UserFields, instance: Option<UserId>)
    requires ValidateUser(users, p, instance, false).Success?
    ensures var v := ValidateUser(users, p, instance, false).value;
      v.email.Some? && v.password.Some? && v.name.Some?
      && v.email.value != "" && v.name.value != ""
  {
  }

  /** The serialized user: `password` is write-only, so only `email` and
      `name` are output. */
  function UserRepr(u: User): (r: map<FieldName, string>)
    ensures r.Keys == {EmailField, NameField} && PasswordField !in r
    ensures r[EmailField] == u.email && r[NameField] == u.name
  {
    map[EmailField := u.email, NameField := u.name]
  }

  /** `create`: validation, then `create_user(**validated_data)`. A second
      account whose address differs only in the case of its domain passes the
      unique validator but not the database's unique constraint. */
  method Register(m: UserManager, p: UserFields) returns (r: Result<User, ApiError>)
    requires m.Valid()
    modifies m
    ensures m.Valid()
    ensures ValidateUser(old(m.users), p, None, false).Failure? ==>
      r == Failure(Invalid(ValidateUser(old(m.users), p, None, false).error)) && m.users == old(m.users)
    ensures r.Failure? ==> m.users == old(m.users)
    ensures r.Success? ==>
      && ValidateUser(old(m.users), p, None, false).Success?
      && r.value.email == NormalizeEmail(Strip(p.email.value))
      && r.value.name == Strip(p.name.value)
      && r.value.password == SetPassword(Some(Strip(p.password.value)))
      && r.value.isActive && !r.value.isStaff && !r.value.isSuperuser
      && m.users == old(m.users) + [r.value]
    ensures ValidateUser(old(m.users), p, None, false).Success? ==>
      (r.Success? <==> !EmailTaken(old(m.users), NormalizeEmail(Strip(p.email.value))))
  {
    var v := ValidateUser(m.users, p, None, false);
    if v.Failure? {
      return Failure(Invalid(v.error));
    }
    FullValidationHasAllFields(m.users, p, None);
    r := m.CreateUser(v.value.email, v.value.password, v.value.name.value);
  }

  /** `ModelSerializer.update`'s loop: `setattr(instance, key, value)` for
      every validated key. Assigning `password` this way stores the text
      itself, not a hash. */
  function SetFields(u: User, d: UserFields): (r: User)
    ensures r.id == u.id && r.isActive == u.isActive && r.isStaff == u.isStaff && r.isSuperuser == u.isSuperuser
    ensures r.email == (if d.email.Some? then d.email.value else u.email)
    ensures r.name == (if d.name.Some? then d.name.value else u.name)
    ensures r.password == (if d.password.Some? then Plain(d.password.value) else u.password)
  {
    var u1 := if d.email.Some? then u.(email := d.email.value) else u;
    var u2 := if d.name.Some? then u1.(name := d.name.value) else u1;
    if d.password.Some? then u2.(password := Plain(d.password.value)) else u2
  }

  /** Without the pop, a new password would be stored as text and no
      password would verify against it. */
  lemma SetFieldsBreaksPassword(u: User, d: UserFields)
    requires d.password.Some?
    ensures forall pw :: !CheckPassword(SetFields(u, d).password, pw)
  {
  }

  /** The user `update` leaves behind: the password is popped from the data,
      the other fields are assigned, and the password is hashed only when it
      is non-empty. */
  function ApplyUpdate(u: User, d: UserFields): (r: User)
    ensures r.id == u.id && r.isActive == u.isActive && r.isStaff == u.isStaff && r.isSuperuser == u.isSuperuser
    ensures r.email == (if d.email.Some? then d.email.value else u.email)
    ensures r.name == (if d.name.Some? then d.name.value else u.name)
    ensures d.password.Some? && d.password.value != "" ==> r.password == SetPassword(d.password)
    ensures d.password.None? || d.password.value == "" ==> r.password == u.password
    ensures !u.password.Plain? ==> !r.password.Plain?
  {
    var password := d.password;
    ApplyPassword(SetFields(u, d.(password := None)), password)
  }

  /** `if password: user.set_password(password)`. */
  function ApplyPassword(u: User, password: Option<string>): (r: User)
    ensures r.(password := u.password) == u
    ensures r.password == if password.Some? && password.value != "" then SetPassword(password) else u.password
  {
    if password.Some? && password.value != "" then u.(password := SetPassword(password)) else u
  }

  /** `update` on the row `id` (the caller's own account): validation with
      that row excluded from the unique check, the generic field update and
      save, then the password and a second save. */
  method Update(m: UserManager, id: UserId, p: UserFields, partial: bool) returns (r: Result<User, ApiError>)
    requires m.Valid()
    requires IndexOfId(m.users, id).Some?
    modifies m
    ensures m.Valid() && m.nextId == old(m.nextId)
    ensures var v := ValidateUser(old(m.users), p, Some(id), partial);
      && (v.Failure? ==> r == Failure(Invalid(v.error)) && m.users == old(m.users))
      && (v.Success? ==> r.Success?)
    ensures r.Success? ==>
      var i := IndexOfId(old(m.users), id).value;
      var v := ValidateUser(old(m.users), p, Some(id), partial).value;
      && r.value == ApplyUpdate(old(m.users)[i], v)
      && m.users == old(m.users)[i := r.value]
  {
    var v := ValidateUser(m.users, p, Some(id), partial);
    if v.Failure? {
      return Failure(Invalid(v.error));
    }
    var i := IndexOfId(m.users, id).value;
    var user := SetFields(m.users[i], v.value.(password := None));
    EmailFreeForUpdate(m.users, i, user, v.value, p, partial);
    r := SaveUpdate(m, i, user, v.value.password);
  }

  /** The two saves of `update`: the row with its new fields, then, when a
      non-empty password was given, the row with that password set. */
  method SaveUpdate(m: UserManager, i: nat, user: User, password: Option<string>) returns (r: Result<User, ApiError>)
    requires m.Valid() && i < |m.users| && user.id == m.users[i].id
    requires forall j :: 0 <= j < |m.users| && j != i ==> m.users[j].email != user.email
    modifies m
    ensures m.Valid() && m.nextId == old(m.nextId)
    ensures r == Success(ApplyPassword(user, password)) && m.users == old(m.users)[i := r.value]
  {
    IndexOfIdAt(m.users, i);
    r := m.Save(user);
    if password.Some? && password.value != "" {
      IndexOfIdAt(m.users, i);
      r := m.Save(user.(password := SetPassword(password)));
    }
  }

  /** The row being updated can always be saved: its email is either the one
      it had or one the unique validator found on no other row. */
  lemma EmailFreeForUpdate(users: seq<User>, i: nat, user: User, v: UserFields, p: UserFields, partial: bool)
    requires UniqueEmails(users) && i < |users|
    requires ValidateUser(users, p, Some(users[i].id), partial) == Success(v)
    requires IncreasingIds(users)
    requires user.id == users[i].id
    requires user.email == (if v.email.Some? then v.email.value else users[i].email)
    ensures forall j :: 0 <= j < |users| && j != i ==> users[j].email != user.email
  {
    forall j | 0 <= j < |users| && j != i ensures users[j].email != user.email {
      assert users[j].id != users[i].id;
    }
  }

  // ---------------------------------------------------------------------
  // AuthTokenSerializer

  /** `email = CharField()`: trimmed, no length limit. */
  const TokenEmailRule := CharRule(required := true, allowBlank := false, trim := true, minLength := 0, maxLength := None)
  /** `password = CharField(trim_whitespace=False)`. */
  const TokenPasswordRule := CharRule(required := true, allowBlank := false, trim := false, minLength := 0, maxLength := None)

  /** The validated attributes; `user` is what `validate` adds. */
  datatype TokenAttrs = TokenAttrs(email: string, password: string, user: Option<User>)

  /** The two field checks of the token serializer. */
  function ValidateTokenFields(email: Option<string>, password: Option<string>): (r: Result<TokenAttrs, Errors>)
    ensures r.Success? <==> CheckChar(TokenEmailRule, email).Success? && CheckChar(TokenPasswordRule, password).Success?
    ensures r.Success? ==> r.value == TokenAttrs(Strip(email.value), password.value, None)
    ensures r.Failure? ==> r.error.Keys <= {EmailField, PasswordField}
    ensures r.Failure? ==>
      && (EmailField in r.error <==> CheckChar(TokenEmailRule, email).Failure?)
      && (PasswordField in r.error <==> CheckChar(TokenPasswordRule, password).Failure?)
    ensures email.None? ==> r.Failure? && EmailField in r.error && r.error[EmailField] == Required
    ensures password.None? ==> r.Failure? && PasswordField in r.error && r.error[PasswordField] == Required
    ensures password == Some("") ==> r.Failure? && PasswordField in r.error && r.error[PasswordField] == Blank
  {
    var e := CheckChar(TokenEmailRule, email);
    var pw := CheckChar(TokenPasswordRule, password);
    if e.Success? && pw.Success? then Success(TokenAttrs(e.value.value, pw.value.value, None))
    else Failure(Reported(map[EmailField := Problem(e), PasswordField := Problem(pw)]))
  }

  /** `validate(attrs)`: authenticate by email and password; refuse with a
      non-field `authentication` error, or return the attributes with the
      user added. */
  function ValidateToken(users: seq<User>, attrs: TokenAttrs): (r: Result<TokenAttrs, ApiError>)
    requires UniqueEmails(users)
    ensures r.Success? <==>
      exists i :: 0 <= i < |users| && users[i].email == attrs.email && users[i].isActive && CheckPassword(users[i].password, attrs.password)
    ensures r.Failure? ==> r.error == Invalid(map[NonFieldErrors := AuthenticationFailed])
    ensures r.Success? ==>
      && r.value.email == attrs.email && r.value.password == attrs.password
      && r.value.user.Some? && r.value.user.value in users
      && r.value.user.value.email == attrs.email && r.value.user.value.isActive
      && CheckPassword(r.value.user.value.password, attrs.password)
  {
    match Authenticate(users, attrs.email, attrs.password)
    case None => Failure(Invalid(map[NonFieldErrors := AuthenticationFailed]))
    case Some(u) => Success(attrs.(user := Some(u)))
  }

  /** The whole token request: field checks, then `validate`. */
  function ObtainToken(users: seq<User>, email: Option<string>, password: Option<string>): (r: Result<TokenAttrs, ApiError>)
    requires UniqueEmails(users)
    ensures ValidateTokenFields(email, password).Failure? ==>
      r == Failure(Invalid(ValidateTokenFields(email, password).error))
    ensures ValidateTokenFields(email, password).Success? ==>
      r == ValidateToken(users, ValidateTokenFields(email, password).value)
  {
    match ValidateTokenFields(email, password)
    case Failure(errors) => Failure(Invalid(errors))
    case Success(attrs) => ValidateToken(users, attrs)
  }

  /** Logging in after registering: the account's stored address and the
      password as registered obtain a token, but the password is trimmed on
      registration and not on login, so a password typed with surrounding
      whitespace never authenticates. (A password holding NUL is refused by
      both serializers.) */
  lemma LoginAfterRegister(users: seq<User>, i: nat, password: string)
    requires UniqueEmails(users) && i < |users|
    requires users[i].isActive && users[i].email != "" && Trimmed(users[i].email) && '\0' !in users[i].email
    requires users[i].password == SetPassword(Some(Strip(password))) && Strip(password) != ""
    ensures ObtainToken(users, Some(users[i].email), Some(password)).Success? <==> Trimmed(password) && '\0' !in password
  {
    var email := users[i].email;
    StripUnchanged(password);
    assert password != "";
    FindByEmailUnique(users, i);
    if Trimmed(password) && '\0' !in password {
      TokenFieldsOfTrimmed(email, password);
      assert ObtainToken(users, Some(email), Some(password)) == ValidateToken(users, TokenAttrs(email, password, None));
      assert Authenticate(users, email, password).Some?;
    } else if ValidateTokenFields(Some(email), Some(password)).Success? {
      var attrs := ValidateTokenFields(Some(email), Some(password)).value;
      assert attrs.password == password && '\0' !in password;
      assert !CheckPassword(users[i].password, password);
      assert Authenticate(users, attrs.email, password).None?;
    }
  }

  /** A non-empty trimmed email and a non-empty password, neither holding
      NUL, pass the field checks unchanged. */
  lemma TokenFieldsOfTrimmed(email: string, password: string)
    requires email != "" && Trimmed(email) && password != ""
    requires '\0' !in email && '\0' !in password
    ensures ValidateTokenFields(Some(email), Some(password)) == Success(TokenAttrs(email, password, None))
  {
    StripUnchanged(email);
    assert CheckChar(TokenEmailRule, Some(email)) == Success(Some(email));
    assert CheckChar(TokenPasswordRule, Some(password)) == Success(Some(password));
  }

  /** A registered address is non-empty and free of surrounding whitespace,
      so it passes the token serializer's email field. */
  lemma RegisteredEmailShape(email: string)
    requires Strip(email) != ""
    ensures var e := NormalizeEmail(Strip(email));
      e != "" && Trimmed(e)
  {
    NormalizeEmailTrimmed(Strip(email));
  }
}
