/** The catalogue serializers (app/book/serializers.py): `{id, name}` for tags
    and authors, the book's eight fields with its related tags and authors
    given as primary keys, and the detail form that nests the related rows. */
module BookSerializers {
  import opened Common
  import opened Text
  import opened Fields
  import opened CoreModels

  /** A value of a serialized representation. `Decimal(c)` is a two-place
      decimal given in hundredths. */
  datatype Value =
    | Int(i: int)
    | Str(s: string)
    | Decimal(cents: int)
    | Items(items: seq<Value>)
    | Record(fields: map<FieldName, Value>)

  // ---------------------------------------------------------------------
  // TagSerializer and AuthorSerializer

  /** The output of `TagSerializer` and `AuthorSerializer`: exactly `id` and
      `name`; the owner is not shown. */
  function NamedRepr(t: NamedRecord): (r: map<FieldName, Value>)
    ensures r.Keys == {IdField, NameField}
    ensures r[IdField] == Int(t.id) && r[NameField] == Str(t.name)
  {
    map[IdField := Int(t.id), NameField := Str(t.name)]
  }

  /** A tag or author request body: `id` is read-only and `user` is not a
      field of the serializer, so only `name` is read. */
  datatype NamedInput = NamedInput(id: Option<int>, name: Option<string>, user: Option<int>)

  /** Validation of a tag or author body: the cleaned name. */
  function ValidateNamed(p: NamedInput): (r: Result<string, Errors>)
    ensures r.Success? <==>
      p.name.Some? && Strip(p.name.value) != "" && |Strip(p.name.value)| <= 255 && '\0' !in Strip(p.name.value)
    ensures r.Success? ==> r.value == Strip(p.name.value)
    ensures r.Failure? ==> r.error.Keys == {NameField}
    ensures p.name.None? ==> r == Failure(map[NameField := Required])
    ensures p.name.Some? && Strip(p.name.value) == "" ==> r == Failure(map[NameField := Blank])
  {
    match CheckChar(ModelCharRule, p.name)
    case Success(v) => Success(v.value)
    case Failure(e) => Failure(map[NameField := e])
  }

  /** The read-only `id` and the unknown `user` of a body change nothing. */
  lemma ValidateNamedIgnoresIdAndUser(p: NamedInput, id: Option<int>, user: Option<int>)
    ensures ValidateNamed(p.(id := id, user := user)) == ValidateNamed(p)
  {
  }

  // ---------------------------------------------------------------------
  // PrimaryKeyRelatedField(many=True, queryset=Model.objects.all())

  /** The row of `table` with primary key `pk`, of any owner. */
  function Lookup(table: seq<NamedRecord>, pk: int): (r: Option<NamedRecord>)
    ensures r.Some? ==> r.value in table && r.value.id == pk
    ensures r.None? <==> forall t :: t in table ==> t.id != pk
  {
    if table == [] then None
    else if table[0].id == pk then Some(table[0])
    else Lookup(table[1..], pk)
  }

  /** `pks[k]` is the first key of the list that names no row. */
  predicate FirstMissing(pks: seq<int>, table: seq<NamedRecord>, k: int) {
    0 <= k < |pks| && Lookup(table, pks[k]).None? && forall j :: 0 <= j < k ==> Lookup(table, pks[j]).Some?
  }

  /** Resolves a list of primary keys against the whole table: the first key
      that names no row is reported; otherwise the keys, in order. */
  function ResolvePks(pks: seq<int>, table: seq<NamedRecord>): (r: Result<seq<nat>, FieldError>)
    ensures r.Success? <==> forall k :: 0 <= k < |pks| ==> Lookup(table, pks[k]).Some?
    ensures r.Success? ==> |r.value| == |pks| && forall k :: 0 <= k < |pks| ==> r.value[k] == pks[k]
    ensures r.Failure? ==> exists k :: FirstMissing(pks, table, k) && r.error == DoesNotExist(pks[k])
  {
    if pks == [] then Success([])
    else match Lookup(table, pks[0])
      case None => Failure(DoesNotExist(pks[0]))
      case Some(t) =>
        match ResolvePks(pks[1..], table)
        case Failure(e) =>
          var k :| FirstMissing(pks[1..], table, k) && e == DoesNotExist(pks[1..][k]);
          assert FirstMissing(pks, table, k + 1);
          Failure(e)
        case Success(rest) => Success([t.id] + rest)
  }

  /** `related.set(ids)`: each key once, in order of first appearance. */
  function Dedup(s: seq<nat>): (r: seq<nat>)
    ensures forall x :: x in r <==> x in s
    ensures forall i, j :: 0 <= i < j < |r| ==> r[i] != r[j]
  {
    if s == [] then []
    else
      var r := Dedup(s[..|s| - 1]);
      assert forall x :: x in s <==> x in s[..|s| - 1] || x == s[|s| - 1] by {
        assert s == s[..|s| - 1] + [s[|s| - 1]];
      }
      if s[|s| - 1] in r then r else r + [s[|s| - 1]]
  }

  /** A key list the table resolves keeps its set of keys on the saved book. */
  lemma {:induction false} ResolvedKeysSaved(pks: seq<int>, table: seq<NamedRecord>)
    requires ResolvePks(pks, table).Success?
    ensures forall x :: x in Dedup(ResolvePks(pks, table).value) <==> x in pks
  {
    var ids := ResolvePks(pks, table).value;
    forall x: int ensures x in ids <==> x in pks {
      if x in pks {
        var k :| 0 <= k < |pks| && pks[k] == x;
        assert ids[k] == x;
      }
    }
  }

  /** No owner check: another user's tag is a valid reference. */
  lemma ForeignRowAccepted(table: seq<NamedRecord>, t: NamedRecord, caller: UserId)
    requires t in table && t.owner != caller
    ensures ResolvePks([t.id], table) == Success([t.id])
  {
    assert Lookup(table, t.id).Some?;
    var r := ResolvePks([t.id], table);
    assert r.Success? && |r.value| == 1 && r.value[0] == t.id;
    assert r.value == [t.id];
  }

  // ---------------------------------------------------------------------
  // BookSerializer

  /** The fields of `BookSerializer`. */
  const BookFields: set<FieldName> := {IdField, TitleField, PagesField, YearField, TagsField, AuthorsField, PriceField, LinkField}

  /** `link`: `CharField(max_length=255, blank=True)`; not required. The
      `title` is a plain `ModelCharRule` field. */
  const LinkRule := ModelCharRule.(required := false, allowBlank := true)
  /** `price`: `DecimalField(max_digits=5, decimal_places=2)`, so at most
      999.99 in absolute value. */
  const MaxPriceCents: int := 99999

  /** A book request body; `tags` and `authors` are lists of primary keys.
      An absent list of a form-encoded body reads as the empty list. */
  datatype BookInput = BookInput(
    id: Option<int>,
    title: Option<string>,
    pages: Option<int>,
    year: Option<int>,
    priceCents: Option<int>,
    link: Option<string>,
    tags: Option<seq<int>>,
    authors: Option<seq<int>>)

  /** The validated data; `year` and `link` are absent when the model
      default applies. */
  datatype BookData = BookData(
    title: string,
    pages: int,
    year: Option<int>,
    priceCents: int,
    link: Option<string>,
    tags: seq<nat>,
    authors: seq<nat>)

  /** `pages`: a required integer. */
  function CheckPages(pages: Option<int>): (r: Result<int, FieldError>)
    ensures r.Success? <==> pages.Some?
    ensures r.Success? ==> r.value == pages.value
    ensures r.Failure? ==> r.error == Required
  {
    if pages.Some? then Success(pages.value) else Failure(Required)
  }

  /** `year`: one of the choices computed when the model was loaded, in
      `loadYear`; not required, since the model has a default. */
  function CheckYear(year: Option<int>, loadYear: int): (r: Result<Option<int>, FieldError>)
    ensures year.None? ==> r == Success(None)
    ensures year.Some? ==>
      (r.Success? <==> (year.value, year.value) in YearChoices(loadYear))
    ensures year.Some? && r.Success? ==> r.value == year
    ensures year.Some? && r.Failure? ==> r.error == InvalidChoice(year.value)
  {
    match year
    case None => Success(None)
    case Some(y) =>
      YearChoiceMembership(loadYear, y, y);
      if FirstYear <= y <= loadYear then Success(Some(y)) else Failure(InvalidChoice(y))
  }

  /** `price`: a required decimal with at most five digits, two of them
      after the point. */
  function CheckPrice(cents: Option<int>): (r: Result<int, FieldError>)
    ensures r.Success? <==> cents.Some? && -MaxPriceCents <= cents.value <= MaxPriceCents
    ensures r.Success? ==> r.value == cents.value
    ensures cents.None? ==> r == Failure(Required)
    ensures cents.Some? && r.Failure? ==> r.error == MaxDigits
  {
    match cents
    case None => Failure(Required)
    case Some(c) => if -MaxPriceCents <= c <= MaxPriceCents then Success(c) else Failure(MaxDigits)
  }

  /** A many-related field of a form-encoded body: absent means empty. */
  function CheckRelated(pks: Option<seq<int>>, table: seq<NamedRecord>): (r: Result<seq<nat>, FieldError>)
    ensures pks.None? ==> r == Success([])
    ensures pks.Some? ==> r == ResolvePks(pks.value, table)
  {
    ResolvePks(if pks.Some? then pks.value else [], table)
  }

  /** The outcome of each writable field's check, by field name. */
  function BookChecks(t: Result<Option<string>, FieldError>, pg: Result<int, FieldError>, y: Result<Option<int>, FieldError>,
                      pr: Result<int, FieldError>, l: Result<Option<string>, FieldError>,
                      tg: Result<seq<nat>, FieldError>, au: Result<seq<nat>, FieldError>): map<FieldName, Option<FieldError>>
  {
    map[TitleField := Problem(t), PagesField := Problem(pg), YearField := Problem(y), PriceField := Problem(pr),
        LinkField := Problem(l), TagsField := Problem(tg), AuthorsField := Problem(au)]
  }

  /** `is_valid()` of `BookSerializer`: every writable field is checked, all
      failures are reported, and `id` is never read. */
  function ValidateBook(p: BookInput, tags: seq<NamedRecord>, authors: seq<NamedRecord>, loadYear: int): (r: Result<BookData, Errors>)
    ensures var t, pg, y, pr, l, tg, au :=
      CheckChar(ModelCharRule, p.title), CheckPages(p.pages), CheckYear(p.year, loadYear), CheckPrice(p.priceCents),
      CheckChar(LinkRule, p.link), CheckRelated(p.tags, tags), CheckRelated(p.authors, authors);
      && (r.Success? <==> t.Success? && pg.Success? && y.Success? && pr.Success? && l.Success? && tg.Success? && au.Success?)
      && (r.Success? ==> r.value == BookData(t.value.value, pg.value, y.value, pr.value, l.value, tg.value, au.value))
      && (r.Failure? ==> r.error == Reported(BookChecks(t, pg, y, pr, l, tg, au)))
    ensures r.Failure? ==> IdField !in r.error
  {
    var t := CheckChar(ModelCharRule, p.title);
    var pg := CheckPages(p.pages);
    var y := CheckYear(p.year, loadYear);
    var pr := CheckPrice(p.priceCents);
    var l := CheckChar(LinkRule, p.link);
    var tg := CheckRelated(p.tags, tags);
    var au := CheckRelated(p.authors, authors);
    if t.Success? && pg.Success? && y.Success? && pr.Success? && l.Success? && tg.Success? && au.Success? then
      Success(BookData(t.value.value, pg.value, y.value, pr.value, l.value, tg.value, au.value))
    else
      Failure(Reported(BookChecks(t, pg, y, pr, l, tg, au)))
  }

  /** A tag key that names no row is reported under `tags`, the first such
      key of the list. */
  lemma UnknownTagReported(p: BookInput, tags: seq<NamedRecord>, authors: seq<NamedRecord>, loadYear: int, k: nat)
    requires p.tags.Some? && FirstMissing(p.tags.value, tags, k)
    ensures var r := ValidateBook(p, tags, authors, loadYear);
      r.Failure? && TagsField in r.error && r.error[TagsField] == DoesNotExist(p.tags.value[k])
  {
    var pks := p.tags.value;
    var e := ResolvePks(pks, tags);
    var k' :| FirstMissing(pks, tags, k') && e.error == DoesNotExist(pks[k']);
    assert k' == k;
  }

  /** `id` is read-only: a client-supplied id has no effect on validation. */
  lemma ClientIdIgnored(p: BookInput, id: Option<int>, tags: seq<NamedRecord>, authors: seq<NamedRecord>, loadYear: int)
    ensures ValidateBook(p.(id := id), tags, authors, loadYear) == ValidateBook(p, tags, authors, loadYear)
  {
  }

  /** A reference to a key no row holds rejects the whole book. */
  lemma UnknownTagRejected(p: BookInput, tags: seq<NamedRecord>, authors: seq<NamedRecord>, loadYear: int, k: nat)
    requires p.tags.Some? && k < |p.tags.value| && Lookup(tags, p.tags.value[k]).None?
    ensures ValidateBook(p, tags, authors, loadYear).Failure?
  {
  }

  /** Because the choices are fixed when the model is loaded, an explicit
      current year is refused once the calendar year has moved past the load
      year, although it is the field's own default. */
  lemma StaleYearRejected(p: BookInput, tags: seq<NamedRecord>, authors: seq<NamedRecord>, loadYear: int, today: Date)
    requires loadYear < today.year && p.year == Some(CurrentYear(today))
    ensures ValidateBook(p, tags, authors, loadYear).Failure?
  {
    StaleChoicesOmitCurrentYear(loadYear, today);
  }

  /** `create(validated_data)` with `user` supplied by the view: the row the
      serializer saves, with the model defaults for `year` (today's year) and
      `link` (empty) and each related key once. */
  function MakeBook(id: nat, owner: UserId, d: BookData, today: Date): (b: Book)
    ensures b.id == id && b.owner == owner
    ensures b.year == (if d.year.Some? then d.year.value else CurrentYear(today))
    ensures b.link == (if d.link.Some? then d.link.value else "")
    ensures forall x :: x in b.tags <==> x in d.tags
    ensures forall x :: x in b.authors <==> x in d.authors
  {
    Book(id, owner, d.title, d.pages,
      if d.year.Some? then d.year.value else CurrentYear(today),
      d.priceCents,
      if d.link.Some? then d.link.value else "",
      Dedup(d.tags), Dedup(d.authors))
  }

  /** A book created from an accepted body holds the body's values: the
      trimmed title, the pages, year and price sent, and the sets of tag and
      author keys sent. */
  lemma CreatedBookMatchesPayload(p: BookInput, tags: seq<NamedRecord>, authors: seq<NamedRecord>, loadYear: int,
                                  id: nat, owner: UserId, today: Date)
    requires ValidateBook(p, tags, authors, loadYear).Success?
    ensures var b := MakeBook(id, owner, ValidateBook(p, tags, authors, loadYear).value, today);
      && b.title == Strip(p.title.value) && b.pages == p.pages.value && b.priceCents == p.priceCents.value
      && (p.year.Some? ==> b.year == p.year.value) && (p.year.None? ==> b.year == today.year)
      && (forall x :: x in b.tags <==> (p.tags.Some? && x in p.tags.value))
      && (forall x :: x in b.authors <==> (p.authors.Some? && x in p.authors.value))
  {
    var d := ValidateBook(p, tags, authors, loadYear).value;
    if p.tags.Some? {
      ResolvedKeysSaved(p.tags.value, tags);
    }
    if p.authors.Some? {
      ResolvedKeysSaved(p.authors.value, authors);
    }
  }

  /** The primary keys as a list of integers. */
  function PkItems(ids: seq<nat>): (r: seq<Value>)
    ensures |r| == |ids| && forall k :: 0 <= k < |ids| ==> r[k] == Int(ids[k])
  {
    if ids == [] then [] else [Int(ids[0])] + PkItems(ids[1..])
  }

  /** The output of `BookSerializer`: exactly its eight fields, the related
      rows as their primary keys; the owner is not shown. */
  function BookRepr(b: Book): (r: map<FieldName, Value>)
    ensures r.Keys == BookFields
    ensures UserField !in r
    ensures r[IdField] == Int(b.id) && r[TitleField] == Str(b.title) && r[PagesField] == Int(b.pages)
      && r[YearField] == Int(b.year) && r[PriceField] == Decimal(b.priceCents) && r[LinkField] == Str(b.link)
    ensures r[TagsField] == Items(PkItems(b.tags)) && r[AuthorsField] == Items(PkItems(b.authors))
  {
    map[IdField := Int(b.id), TitleField := Str(b.title), PagesField := Int(b.pages), YearField := Int(b.year),
        TagsField := Items(PkItems(b.tags)), AuthorsField := Items(PkItems(b.authors)),
        PriceField := Decimal(b.priceCents), LinkField := Str(b.link)]
  }

  /** Every key names a row of the table (the database's foreign keys). */
  predicate AllResolve(ids: seq<nat>, table: seq<NamedRecord>) {
    forall k :: 0 <= k < |ids| ==> Lookup(table, ids[k]).Some?
  }

  /** The related rows nested as `{id, name}` records. */
  function NestedItems(ids: seq<nat>, table: seq<NamedRecord>): (r: seq<Value>)
    requires AllResolve(ids, table)
    ensures |r| == |ids|
    ensures forall k :: 0 <= k < |ids| ==> r[k] == Record(NamedRepr(Lookup(table, ids[k]).value))
  {
    if ids == [] then [] else [Record(NamedRepr(Lookup(table, ids[0]).value))] + NestedItems(ids[1..], table)
  }

  /** The output of `BookDetailSerializer`: the same eight fields, with
      `tags` and `authors` rendered by the tag and author serializers. */
  function BookDetailRepr(b: Book, tags: seq<NamedRecord>, authors: seq<NamedRecord>): (r: map<FieldName, Value>)
    requires AllResolve(b.tags, tags) && AllResolve(b.authors, authors)
    ensures r.Keys == BookRepr(b).Keys
    ensures forall f :: f in r && f != TagsField && f != AuthorsField ==> r[f] == BookRepr(b)[f]
    ensures r[TagsField] == Items(NestedItems(b.tags, tags)) && r[AuthorsField] == Items(NestedItems(b.authors, authors))
  {
    BookRepr(b)[TagsField := Items(NestedItems(b.tags, tags))][AuthorsField := Items(NestedItems(b.authors, authors))]
  }

  /** The detail form nests the very rows the plain form lists by key: the
      k-th nested tag's `id` is the k-th listed key. */
  lemma DetailNestsListedRows(b: Book, tags: seq<NamedRecord>, authors: seq<NamedRecord>, k: nat)
    requires AllResolve(b.tags, tags) && AllResolve(b.authors, authors) && k < |b.tags|
    ensures var nested := BookDetailRepr(b, tags, authors)[TagsField].items[k];
      nested.Record? && nested.fields[IdField] == BookRepr(b)[TagsField].items[k]
  {
  }
}
