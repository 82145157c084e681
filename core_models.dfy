/** The data model of the catalogue (app/core/models.py): users and their
    manager, the owned Tag, Author and Book rows, the publication-year
    choices and the string forms of the rows. */
module CoreModels {
  import opened Common
  import opened Text

  type UserId = nat

  /** Today's date, which the source reads from the clock. */
  datatype Date = Date(year: int, month: int, day: int)

  /** The first publication year a book may have. */
  const FirstYear: int := 1500

  /** `year_choices()` evaluated in year `lastYear`: one `(year, year)` pair
      per year from 1500 to `lastYear`, oldest first. */
  function YearChoices(lastYear: int): (r: seq<(int, int)>)
    ensures |r| == if lastYear < FirstYear then 0 else lastYear - FirstYear + 1
    ensures forall i :: 0 <= i < |r| ==> r[i] == (FirstYear + i, FirstYear + i)
    decreases lastYear - FirstYear
  {
    if lastYear < FirstYear then [] else YearChoices(lastYear - 1) + [(lastYear, lastYear)]
  }

  /** A pair is offered exactly when it is `(y, y)` for a year in range. */
  lemma YearChoiceMembership(lastYear: int, a: int, b: int)
    ensures (a, b) in YearChoices(lastYear) <==> a == b && FirstYear <= a <= lastYear
  {
    var r := YearChoices(lastYear);
    if a == b && FirstYear <= a <= lastYear {
      assert r[a - FirstYear] == (a, b);
    }
  }

  /** `current_year()`: the year of today's date, which is among the choices
      computed on the same day exactly when it is not before 1500. */
  function CurrentYear(today: Date): (y: int)
    ensures y == today.year
    ensures (y, y) in YearChoices(today.year) <==> FirstYear <= y
  {
    YearChoiceMembership(today.year, today.year, today.year);
    today.year
  }

  /** When the choices were computed this year, the default year is one of them. */
  lemma DefaultYearIsAChoice(today: Date)
    requires today.year >= FirstYear
    ensures (CurrentYear(today), CurrentYear(today)) in YearChoices(today.year)
  {
    YearChoiceMembership(today.year, today.year, today.year);
  }

  /** The choices are computed once, when the Book model is loaded, while the
      default is computed when a book is created without a year: once the
      calendar year has moved on past the load year, the default year is no
      longer among the choices. */
  lemma StaleChoicesOmitCurrentYear(loadYear: int, today: Date)
    requires loadYear < today.year
    ensures (CurrentYear(today), CurrentYear(today)) !in YearChoices(loadYear)
  {
    YearChoiceMembership(loadYear, today.year, today.year);
  }

  // ---------------------------------------------------------------------
  // Users

  /** The password column. Hashing is abstracted: `Hashed(p)` is what
      `set_password(p)` stores, `Unusable` what `set_password(None)` stores,
      and `Plain(t)` a column that was assigned the text `t` directly. */
  datatype Credential = Unusable | Hashed(secret: string) | Plain(text: string)

  /** `check_password`: only a hash of the same password verifies. */
  predicate CheckPassword(c: Credential, raw: string): (ok: bool)
    ensures ok ==> c.Hashed?
    ensures c.Hashed? ==> (ok <==> c.secret == raw)
  {
    c == Hashed(raw)
  }

  /** `set_password(raw)`, with `None` for Python's `None`. */
  function SetPassword(raw: Option<string>): (c: Credential)
    ensures forall pw :: CheckPassword(c, pw) <==> raw == Some(pw)
  {
    match raw
    case Some(p) => Hashed(p)
    case None => Unusable
  }

  datatype User = User(
    id: UserId,
    email: string,
    name: string,
    password: Credential,
    isActive: bool,
    isStaff: bool,
    isSuperuser: bool)

  /** `s.rsplit('@', 1)`: the text before and after the last '@' of `s`;
      `None` when it has no '@'. */
  function SplitLast(s: string): (r: Option<(string, string)>)
    ensures r.None? <==> '@' !in s
    ensures r.Some? ==> s == r.value.0 + "@" + r.value.1 && '@' !in r.value.1
  {
    match LastIndexOf(s, '@')
    case None => None
    case Some(at) =>
      assert s == s[..at] + "@" + s[at + 1..];
      Some((s[..at], s[at + 1..]))
  }

  /** `email.strip().rsplit('@', 1)`: the local part and the domain of the
      stripped address. */
  function SplitAddress(email: string): (r: Option<(string, string)>)
    ensures r.None? <==> '@' !in Strip(email)
    ensures r.Some? ==> Strip(email) == r.value.0 + "@" + r.value.1 && '@' !in r.value.1
  {
    SplitLast(Strip(email))
  }

  /** A trimmed address whose domain holds no '@' splits into that local
      part and that domain. */
  lemma SplitAddressOf(local: string, domain: string)
    requires Trimmed(local + "@" + domain) && '@' !in domain
    ensures SplitAddress(local + "@" + domain) == Some((local, domain))
  {
    var e := local + "@" + domain;
    assert e[|local| + 1..] == domain;
    LastIndexOfAt(e, '@', |local|);
    assert e[..|local|] == local;
  }

  /** `BaseUserManager.normalize_email`: the address is kept as given when it
      has no '@'; otherwise the stripped local part is kept and the domain
      after the last '@' is lower-cased. */
  function NormalizeEmail(email: string): (r: string)
    ensures r == [] <==> email == []
  {
    match SplitAddress(email)
    case None => email
    case Some((local, domain)) => local + "@" + Lower(domain)
  }

  /** The parts of a normalised address: the same local part, and a domain
      that equals the input's up to case and holds no upper-case letter. */
  lemma NormalizeEmailParts(email: string)
    ensures SplitAddress(email).None? ==> NormalizeEmail(email) == email
    ensures SplitAddress(email).Some? ==>
      var (local, domain) := SplitAddress(email).value;
      SplitAddress(NormalizeEmail(email)) == Some((local, Lower(domain)))
      && Lower(Lower(domain)) == Lower(domain)
  {
    match SplitAddress(email)
    case None =>
    case Some((local, domain)) =>
      LoweredDomainShape(local, domain);
      SplitAddressOf(local, Lower(domain));
      LowerIdempotent(domain);
  }

  lemma LoweredDomainShape(local: string, domain: string)
    requires Trimmed(local + "@" + domain) && '@' !in domain
    ensures Trimmed(local + "@" + Lower(domain)) && '@' !in Lower(domain)
  {
    var s, r := local + "@" + domain, local + "@" + Lower(domain);
    assert r[0] == s[0];
    if domain != [] {
      LowerCharFacts(domain[|domain| - 1]);
      assert r[|r| - 1] == LowerChar(s[|s| - 1]);
    }
    forall i | 0 <= i < |domain| ensures Lower(domain)[i] != '@' {
      LowerCharFacts(domain[i]);
    }
  }

  /** A trimmed address with a domain: only the domain changes, to lower
      case (`test@EMAIL.com` becomes `test@email.com`). */
  lemma NormalizeEmailOf(local: string, domain: string)
    requires Trimmed(local + "@" + domain) && '@' !in domain
    ensures NormalizeEmail(local + "@" + domain) == local + "@" + Lower(domain)
  {
    SplitAddressOf(local, domain);
  }

  /** Normalising keeps an address free of surrounding whitespace. */
  lemma NormalizeEmailTrimmed(email: string)
    requires Trimmed(email)
    ensures Trimmed(NormalizeEmail(email))
  {
    match SplitAddress(email)
    case None =>
    case Some((local, domain)) =>
      LoweredDomainShape(local, domain);
  }

  /** Normalising an already normalised address changes nothing. */
  lemma {:induction false} NormalizeEmailIdempotent(email: string)
    ensures NormalizeEmail(NormalizeEmail(email)) == NormalizeEmail(email)
  {
    NormalizeEmailParts(email);
  }

  predicate EmailTaken(users: seq<User>, email: string) {
    exists i :: 0 <= i < |users| && users[i].email == email
  }

  /** The `unique=True` constraint on `User.email`. */
  predicate UniqueEmails(users: seq<User>) {
    forall i, j :: 0 <= i < j < |users| ==> users[i].email != users[j].email
  }

  /** Rows in insertion order, with the auto-increment primary keys. */
  predicate IncreasingIds(users: seq<User>) {
    forall i, j :: 0 <= i < j < |users| ==> users[i].id < users[j].id
  }

  /** The row holding primary key `id`. */
  function IndexOfId(users: seq<User>, id: UserId): (r: Option<nat>)
    ensures r.Some? ==> r.value < |users| && users[r.value].id == id
    ensures r.None? ==> forall i :: 0 <= i < |users| ==> users[i].id != id
  {
    if users == [] then None
    else if users[|users| - 1].id == id then Some(|users| - 1)
    else IndexOfId(users[..|users| - 1], id)
  }

  /** The row whose email is exactly `email` (`get_by_natural_key`). */
  function FindByEmail(users: seq<User>, email: string): (r: Option<nat>)
    ensures r.Some? ==> r.value < |users| && users[r.value].email == email
    ensures r.None? <==> !EmailTaken(users, email)
  {
    if users == [] then None
    else if users[|users| - 1].email == email then Some(|users| - 1)
    else
      var r := FindByEmail(users[..|users| - 1], email);
      assert EmailTaken(users[..|users| - 1], email) ==> EmailTaken(users, email);
      r
  }

  /** With distinct keys, the lookup by a row's key finds that row. */
  lemma IndexOfIdAt(users: seq<User>, i: nat)
    requires IncreasingIds(users) && i < |users|
    ensures IndexOfId(users, users[i].id) == Some(i)
  {
    var k := IndexOfId(users, users[i].id).value;
    assert users[k].id == users[i].id;
  }

  /** With unique emails, the lookup by a row's email finds that row. */
  lemma FindByEmailUnique(users: seq<User>, i: nat)
    requires UniqueEmails(users) && i < |users|
    ensures FindByEmail(users, users[i].email) == Some(i)
  {
  }

  /** The authentication backend: the user with this email, provided the
      account is active and the password verifies; `None` otherwise. */
  function Authenticate(users: seq<User>, email: string, password: string): (r: Option<User>)
    requires UniqueEmails(users)
    ensures r.Some? <==>
      exists i :: 0 <= i < |users| && users[i].email == email && users[i].isActive && CheckPassword(users[i].password, password)
    ensures r.Some? ==>
      r.value in users && r.value.email == email && r.value.isActive && CheckPassword(r.value.password, password)
  {
    match FindByEmail(users, email)
    case None => None
    case Some(i) =>
      if users[i].isActive && CheckPassword(users[i].password, password) then Some(users[i]) else None
  }

  /** The user table together with `UserManager`. */
  class UserManager {
    var users: seq<User>
    var nextId: nat

    ghost predicate Valid()
      reads this
    {
      && UniqueEmails(users)
      && IncreasingIds(users)
      && (forall i :: 0 <= i < |users| ==> users[i].id < nextId)
    }

    constructor ()
      ensures Valid() && users == []
    {
      users := [];
      nextId := 1;
    }

    /** `create_user(email, password, name=...)`: rejects a missing or empty
        email, stores the normalised email, hashes the password and keeps the
        field defaults (active, not staff, not superuser). Saving a second row
        with the same normalised email violates the unique constraint. */
    method CreateUser(email: Option<string>, password: Option<string>, name: string)
      returns (r: Result<User, ApiError>)
      requires Valid()
      modifies this
      ensures Valid()
      ensures r.Success? <==> email.Some? && email.value != "" && !EmailTaken(old(users), NormalizeEmail(email.value))
      ensures email.None? || email.value == "" ==> r == Failure(MissingEmail)
      ensures email.Some? && email.value != "" && EmailTaken(old(users), NormalizeEmail(email.value))
        ==> r == Failure(IntegrityViolation)
      ensures r.Failure? ==> users == old(users) && nextId == old(nextId)
      ensures r.Success? ==>
        && r.value.id == old(nextId)
        && r.value.email == NormalizeEmail(email.value)
        && r.value.name == name
        && r.value.password == SetPassword(password)
        && r.value.isActive && !r.value.isStaff && !r.value.isSuperuser
        && users == old(users) + [r.value]
        && nextId == old(nextId) + 1
    {
      if email.None? || email.value == "" {
        return Failure(MissingEmail);
      }
      var normalized := NormalizeEmail(email.value);
      if EmailTaken(users, normalized) {
        return Failure(IntegrityViolation);
      }
      var user := User(nextId, normalized, name, SetPassword(password), true, false, false);
      users := users + [user];
      nextId := nextId + 1;
      r := Success(user);
    }

    /** `user.save()` of a row that exists: rewrites it, unless another row
        already holds its email. */
    method Save(u: User) returns (r: Result<User, ApiError>)
      requires Valid()
      requires IndexOfId(users, u.id).Some?
      modifies this
      ensures Valid() && nextId == old(nextId)
      ensures var i := IndexOfId(old(users), u.id).value;
        && (r.Success? <==> forall j :: 0 <= j < |old(users)| && j != i ==> old(users)[j].email != u.email)
        && (r.Success? ==> r.value == u && users == old(users)[i := u])
    ensures r.Failure? ==> r == Failure(IntegrityViolation) && users == old(users)
    {
      var i := IndexOfId(users, u.id).value;
      var j := FindByEmail(users, u.email);
      if j.Some? && j.value != i {
        return Failure(IntegrityViolation);
      }
      users := users[i := u];
      r := Success(u);
    }

    /** `create_superuser(email, password)`: `create_user`, then both staff
        flags set and saved again. */
    method CreateSuperuser(email: Option<string>, password: Option<string>)
      returns (r: Result<User, ApiError>)
      requires Valid()
      modifies this
      ensures Valid()
      ensures r.Success? <==> email.Some? && email.value != "" && !EmailTaken(old(users), NormalizeEmail(email.value))
      ensures email.None? || email.value == "" ==> r == Failure(MissingEmail)
      ensures email.Some? && email.value != "" && EmailTaken(old(users), NormalizeEmail(email.value))
        ==> r == Failure(IntegrityViolation)
      ensures r.Failure? ==> users == old(users) && nextId == old(nextId)
      ensures r.Success? ==>
        && r.value.id == old(nextId)
        && r.value.email == NormalizeEmail(email.value)
        && r.value.name == ""
        && r.value.password == SetPassword(password)
        && r.value.isActive && r.value.isStaff && r.value.isSuperuser
        && users == old(users) + [r.value]
        && nextId == old(nextId) + 1
    {
      r := CreateUser(email, password, "");
      if r.Success? {
        var promoted := r.value.(isStaff := true, isSuperuser := true);
        assert users[|users| - 1] == r.value;
        assert IndexOfId(users, promoted.id) == Some(|users| - 1);
        ghost var before := users;
        r := Save(promoted);
        assert r.Success?;
        assert users == before[|before| - 1 := promoted];
        assert users == old(users) + [promoted];
      }
    }
  }

  // ---------------------------------------------------------------------
  // Owned rows

  /** A Tag or an Author row: `{id, name, user}`; both models have this shape. */
  datatype NamedRecord = NamedRecord(id: nat, name: string, owner: UserId)

  /** A Book row; `tags` and `authors` hold the related primary keys, each once.
      `priceCents` is the two-decimal price in hundredths. */
  datatype Book = Book(
    id: nat,
    owner: UserId,
    title: string,
    pages: int,
    year: int,
    priceCents: int,
    link: string,
    tags: seq<nat>,
    authors: seq<nat>)

  /** `str(tag)` and `str(author)`: the name. */
  function NamedStr(t: NamedRecord): (s: string)
    ensures s == t.name
  {
    t.name
  }

  /** `str(book)`: the title. */
  function BookStr(b: Book): (s: string)
    ensures s == b.title
  {
    b.title
  }
}
