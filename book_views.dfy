/** The tag endpoint (app/book/views.py, `TagViewSet`): an authenticated
    caller lists their own tags, sorted by descending name, and creates tags
    owned by themselves. The author tests describe the same contract, so the
    table below serves for authors as well. */
module BookViews {
  import opened Common
  import opened Text
  import opened CoreModels
  import opened BookSerializers

  /** `filter(user=caller)`: the caller's rows, in table order. */
  function OwnedBy(rs: seq<NamedRecord>, c: UserId): (r: seq<NamedRecord>)
    ensures forall t :: multiset(r)[t] == if t.owner == c then multiset(rs)[t] else 0
    ensures forall t :: t in r <==> t in rs && t.owner == c
  {
    if rs == [] then []
    else
      var rest := OwnedBy(rs[..|rs| - 1], c);
      var last := rs[|rs| - 1];
      assert rs == rs[..|rs| - 1] + [last];
      if last.owner == c then rest + [last] else rest
  }

  /** Filtering a table grown by one row: the row joins the owner's rows
      at the end and no one else's. */
  lemma OwnedByAppend(rs: seq<NamedRecord>, t: NamedRecord, c: UserId)
    ensures OwnedBy(rs + [t], c) == OwnedBy(rs, c) + (if t.owner == c then [t] else [])
  {
    assert (rs + [t])[..|rs + [t]| - 1] == rs;
  }

  /** `order_by('-name')`: names in non-increasing order. */
  predicate NameDescending(s: seq<NamedRecord>) {
    forall i, j :: 0 <= i < j < |s| ==> LexLe(s[j].name, s[i].name)
  }

  /** Inserts `t` into a list sorted by descending name, before the first
      row whose name is not greater than its own. */
  function Insert(t: NamedRecord, s: seq<NamedRecord>): (r: seq<NamedRecord>)
    requires NameDescending(s)
    ensures NameDescending(r)
    ensures multiset(r) == multiset(s) + multiset{t}
  {
    if s == [] then [t]
    else if LexLe(s[0].name, t.name) then
      forall j | 0 <= j < |s| ensures LexLe(s[j].name, t.name) {
        if j > 0 { LexLeTransitive(s[j].name, s[0].name, t.name); }
      }
      [t] + s
    else
      var rest := Insert(t, s[1..]);
      LexLeTotal(s[0].name, t.name);
      assert s == [s[0]] + s[1..];
      forall j | 0 <= j < |rest| ensures LexLe(rest[j].name, s[0].name) {
        assert rest[j] in multiset(s[1..]) + multiset{t};
      }
      [s[0]] + rest
  }

  /** The rows sorted by descending name. */
  function SortByNameDesc(s: seq<NamedRecord>): (r: seq<NamedRecord>)
    ensures NameDescending(r)
    ensures multiset(r) == multiset(s)
  {
    if s == [] then []
    else
      assert s == s[..|s| - 1] + [s[|s| - 1]];
      Insert(s[|s| - 1], SortByNameDesc(s[..|s| - 1]))
  }

  /** `get_queryset()`: the caller's rows, by descending name. Only the
      caller's rows, all of them, each as often as in the table. */
  function GetQueryset(rs: seq<NamedRecord>, c: UserId): (r: seq<NamedRecord>)
    ensures forall t :: t in r ==> t.owner == c
    ensures forall t :: t in rs && t.owner == c ==> t in r
    ensures NameDescending(r)
    ensures multiset(r) == multiset(OwnedBy(rs, c))
  {
    SortByNameDesc(OwnedBy(rs, c))
  }

  /** The listing depends on the caller's rows only: adding a row owned by
      someone else leaves it exactly as it was. The order among rows with
      equal names is the model's own (the database promises none for ties),
      so the multiset form is what the endpoint itself guarantees. */
  lemma ListingIgnoresOthersRows(rs: seq<NamedRecord>, t: NamedRecord, c: UserId)
    requires t.owner != c
    ensures GetQueryset(rs + [t], c) == GetQueryset(rs, c)
  {
    OwnedByAppend(rs, t, c);
    assert OwnedBy(rs + [t], c) == OwnedBy(rs, c);
  }

  /** The tie-independent form: the same rows, as often as before. */
  lemma ListingIgnoresOthersRowsAsMultiset(rs: seq<NamedRecord>, t: NamedRecord, c: UserId)
    requires t.owner != c
    ensures multiset(GetQueryset(rs + [t], c)) == multiset(GetQueryset(rs, c))
  {
    OwnedByAppend(rs, t, c);
  }

  /** A row added for the caller shows up in the caller's listing, once more
      than before. */
  lemma ListingShowsOwnNewRow(rs: seq<NamedRecord>, t: NamedRecord)
    ensures var r, before := GetQueryset(rs + [t], t.owner), GetQueryset(rs, t.owner);
      t in r && multiset(r) == multiset(before) + multiset{t}
  {
    OwnedByAppend(rs, t, t.owner);
  }

  /** The tag table and its auto-increment key, behind `TagViewSet`. */
  class OwnedCollection {
    var records: seq<NamedRecord>
    var nextId: nat

    /** Keys are handed out in increasing order and never reused. */
    ghost predicate Valid()
      reads this
    {
      && (forall i, j :: 0 <= i < j < |records| ==> records[i].id < records[j].id)
      && (forall i :: 0 <= i < |records| ==> records[i].id < nextId)
    }

    constructor ()
      ensures Valid() && records == []
    {
      records := [];
      nextId := 1;
    }

    /** `GET` on the list: refused without an authenticated caller,
        otherwise `get_queryset()`. Nothing is changed. */
    method List(caller: Option<UserId>) returns (r: Result<seq<NamedRecord>, ApiError>)
      ensures caller.None? <==> r == Failure(NotAuthenticated)
      ensures caller.Some? ==>
        && r.Success?
        && (forall t :: t in r.value <==> t in records && t.owner == caller.value)
        && NameDescending(r.value)
        && multiset(r.value) == multiset(OwnedBy(records, caller.value))
    {
      if caller.None? {
        return Failure(NotAuthenticated);
      }
      r := Success(GetQueryset(records, caller.value));
    }

    /** `POST` on the list: refused without an authenticated caller; then the
        serializer validates the body, and `perform_create` saves the row
        with the caller as owner, whatever the body says. */
    method Create(caller: Option<UserId>, p: NamedInput) returns (r: Result<NamedRecord, ApiError>)
      requires Valid()
      modifies this
      ensures Valid()
      ensures caller.None? ==> r == Failure(NotAuthenticated)
      ensures caller.Some? && ValidateNamed(p).Failure? ==> r == Failure(Invalid(ValidateNamed(p).error))
      ensures r.Failure? ==> records == old(records) && nextId == old(nextId)
      ensures r.Success? <==> caller.Some? && ValidateNamed(p).Success?
      ensures r.Success? ==>
        && r.value == NamedRecord(old(nextId), ValidateNamed(p).value, caller.value)
        && records == old(records) + [r.value]
        && nextId == old(nextId) + 1
        && (forall t :: t in old(records) ==> t.id != r.value.id)
    {
      if caller.None? {
        return Failure(NotAuthenticated);
      }
      var v := ValidateNamed(p);
      if v.Failure? {
        return Failure(Invalid(v.error));
      }
      var t := NamedRecord(nextId, v.value, caller.value);
      records := records + [t];
      nextId := nextId + 1;
      r := Success(t);
    }
  }
}
