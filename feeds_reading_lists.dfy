/** The reading lists of the feeds app: a table of rows, each owned by a
    user, with two uniqueness constraints per user (one default list, one
    row per slug). The enumeration check constraints hold by construction:
    the status and unit columns are datatypes. */
module FeedsReadingLists {
  import opened Common
  import opened Time
  import opened Sorting
  import opened ReadingModel

  datatype FeedsReadingList = FeedsReadingList(
    id: nat,
    name: string,
    slug: string,
    isDefault: bool,
    order: int,
    readStatus: ReadStatus,
    favoriteStatus: FavoriteStatus,
    maxAgeValue: nat,
    maxAgeUnit: AgeUnit,
    user: UserId)

  /** A row `candidate` would break a constraint of `rows`: another list of
      the same user has its slug, or both are default lists. */
  predicate Clashes(rows: seq<FeedsReadingList>, candidate: FeedsReadingList) {
    exists i :: 0 <= i < |rows| && rows[i].user == candidate.user &&
      (rows[i].slug == candidate.slug || (rows[i].isDefault && candidate.isDefault))
  }

  /** The bounds of the bounded columns: `name` is `varchar(255)`, `slug` a
      `SlugField` of Django's default width 50, `order` an `integer` and
      `articles_max_age_value` a `PositiveIntegerField`, also an `integer`.
      PostgreSQL rejects a row outside them with a `DataError`. */
  predicate ListFitsColumns(row: FeedsReadingList) {
    && |row.name| <= 255
    && |row.slug| <= 50
    && -0x8000_0000 <= row.order <= MaxPositiveInteger
    && row.maxAgeValue <= MaxPositiveInteger
  }

  /** The `Meta.constraints`: ids are distinct, and per user slugs are
      distinct and at most one list is the default. */
  ghost predicate ConstraintsHold(rows: seq<FeedsReadingList>) {
    && (forall i, j :: 0 <= i < j < |rows| ==> rows[i].id != rows[j].id)
    && (forall i, j :: 0 <= i < j < |rows| && rows[i].user == rows[j].user ==>
          rows[i].slug != rows[j].slug && !(rows[i].isDefault && rows[j].isDefault))
  }

  lemma AppendKeepsConstraints(rows: seq<FeedsReadingList>, row: FeedsReadingList)
    requires ConstraintsHold(rows)
    requires !Clashes(rows, row)
    requires forall i :: 0 <= i < |rows| ==> rows[i].id != row.id
    ensures ConstraintsHold(rows + [row])
  {
    var r := rows + [row];
    forall i, j | 0 <= i < j < |r| && r[i].user == r[j].user
      ensures r[i].slug != r[j].slug && !(r[i].isDefault && r[j].isDefault)
    {
      if j == |rows| {
        assert r[i] == rows[i];
      }
    }
  }

  // ---------------------------------------------------------------------
  // Lookups.

  function Where(rows: seq<FeedsReadingList>, p: FeedsReadingList -> bool): (r: seq<FeedsReadingList>)
    ensures forall x :: x in r <==> x in rows && p(x)
    ensures |r| <= |rows|
  {
    if |rows| == 0 then []
    else
      assert rows == [rows[0]] + rows[1..];
      (if p(rows[0]) then [rows[0]] else []) + Where(rows[1..], p)
  }

  datatype GetError = DoesNotExist | MultipleObjectsReturned

  /** What `get_reading_list(user, slug)` looks up: the user's default list
      without a slug, the user's list with that slug otherwise. */
  predicate Wanted(user: UserId, slug: Option<string>, x: FeedsReadingList) {
    x.user == user && (if slug.None? then x.isDefault else x.slug == slug.value)
  }

  /** `get_reading_list`: `QuerySet.get` on the wanted rows, which fails
      when there is none and when there are several. */
  function GetReadingList(rows: seq<FeedsReadingList>, user: UserId, slug: Option<string>): (r: Result<FeedsReadingList, GetError>)
    ensures r.Success? ==> r.value in rows && Wanted(user, slug, r.value)
    ensures r == Failure(DoesNotExist) <==> forall x :: x in rows ==> !Wanted(user, slug, x)
  {
    var found := Where(rows, (x: FeedsReadingList) => Wanted(user, slug, x));
    if |found| == 0 then Failure(DoesNotExist)
    else if |found| == 1 then assert found[0] in found; Success(found[0])
    else Failure(MultipleObjectsReturned)
  }

  /** `Meta.ordering = ["order", "id"]`. */
  predicate ListOrder(a: FeedsReadingList, b: FeedsReadingList) {
    a.order < b.order || (a.order == b.order && a.id <= b.id)
  }

  lemma ListOrderIsTotalPreorder()
    ensures IsTotalPreorder(ListOrder)
  {
  }

  /** `get_all_for_user`: the user's lists, in the model ordering. */
  function AllForUser(rows: seq<FeedsReadingList>, user: UserId): (r: seq<FeedsReadingList>)
    ensures SortedBy(r, ListOrder)
    ensures forall x :: x in r <==> x in rows && x.user == user
    ensures multiset(r) == multiset(Where(rows, (x: FeedsReadingList) => x.user == user))
  {
    var mine := Where(rows, (x: FeedsReadingList) => x.user == user);
    ListOrderIsTotalPreorder();
    var r := SortBy(mine, ListOrder);
    SameMembers(r, mine);
    r
  }

  // ---------------------------------------------------------------------
  // The default lists.

  /** The five lists `create_default_lists` makes, given the ids the table
      hands out: "All articles" without criteria, "Unread" (the default),
      "Recent" (two days), "Favorite" and "Archive". The slugs are what
      `slugify` makes of the English names. */
  function DefaultLists(user: UserId, firstId: nat): (r: seq<FeedsReadingList>)
    ensures |r| == 5
    ensures forall i :: 0 <= i < 5 ==> r[i].user == user && r[i].id == firstId + i && r[i].order == 10 * i
  {
    var blank := FeedsReadingList(firstId, "All articles", "all-articles", false, 0, ReadStatus.All, FavoriteStatus.All, 0, AgeUnit.Unset, user);
    [ blank,
      blank.(id := firstId + 1, name := "Unread", slug := "unread", isDefault := true, readStatus := ReadStatus.OnlyUnread, order := 10),
      blank.(id := firstId + 2, name := "Recent", slug := "recent", maxAgeValue := 2, maxAgeUnit := Days, order := 20),
      blank.(id := firstId + 3, name := "Favorite", slug := "favorite", favoriteStatus := FavoriteStatus.OnlyFavorite, order := 30),
      blank.(id := firstId + 4, name := "Archive", slug := "archive", readStatus := ReadStatus.OnlyRead, order := 40) ]
  }

  /** Every default list fits the columns, so `create_default_lists` can
      only fail on a uniqueness constraint. */
  lemma DefaultListsFitColumns(user: UserId, firstId: nat, i: int)
    requires 0 <= i < 5
    ensures ListFitsColumns(DefaultLists(user, firstId)[i])
  {
  }

  /** The five defaults fit: the user has no default list yet and none of
      the five slugs. */
  predicate DefaultsFit(rows: seq<FeedsReadingList>, user: UserId) {
    forall i :: 0 <= i < 5 ==> !Clashes(rows, DefaultLists(user, 0)[i])
  }

  class ReadingListTable {
    var rows: seq<FeedsReadingList>
    var nextId: nat

    ghost predicate Valid()
      reads this
    {
      ConstraintsHold(rows) && forall i :: 0 <= i < |rows| ==> rows[i].id < nextId
    }

    constructor ()
      ensures Valid() && rows == [] && nextId == 1
    {
      rows := [];
      nextId := 1;
    }

    /** `ReadingList.objects.create(...)`: the row gets the next id, or the
        insert fails and nothing changes: with a `DataError` when a value
        does not fit its column (checked as the row is formed), otherwise
        with an `IntegrityError` on a uniqueness constraint. */
    method Create(row: FeedsReadingList) returns (r: Result<FeedsReadingList, string>)
      requires Valid()
      modifies this
      ensures Valid()
      ensures !ListFitsColumns(row) ==> r == Failure("DataError") && rows == old(rows) && nextId == old(nextId)
      ensures ListFitsColumns(row) && Clashes(old(rows), row) ==>
        r == Failure("IntegrityError") && rows == old(rows) && nextId == old(nextId)
      ensures ListFitsColumns(row) && !Clashes(old(rows), row) ==>
        && r == Success(row.(id := old(nextId)))
        && rows == old(rows) + [row.(id := old(nextId))]
        && nextId == old(nextId) + 1
    {
      if !ListFitsColumns(row) {
        return Failure("DataError");
      }
      if Clashes(rows, row) {
        return Failure("IntegrityError");
      }
      var stored := row.(id := nextId);
      assert !Clashes(rows, stored);
      AppendKeepsConstraints(rows, stored);
      rows := rows + [stored];
      nextId := nextId + 1;
      r := Success(stored);
    }

    /** `create_default_lists(user)`: five inserts in one transaction; when
        one of them fails the transaction rolls back and the table is as it
        was. */
    method CreateDefaultLists(user: UserId) returns (ok: bool)
      requires Valid()
      modifies this
      ensures Valid()
      ensures ok <==> DefaultsFit(old(rows), user)
      ensures ok ==> rows == old(rows) + DefaultLists(user, old(nextId)) && nextId == old(nextId) + 5
      ensures !ok ==> rows == old(rows) && old(nextId) <= nextId < old(nextId) + 5
    {
      var saved, firstId := rows, nextId;
      assert DefaultLists(user, firstId)[..0] == [];
      ok := CreateNthDefault(saved, user, firstId, 0);
      if !ok {
        return;
      }
      ok := CreateNthDefault(saved, user, firstId, 1);
      if !ok {
        return;
      }
      ok := CreateNthDefault(saved, user, firstId, 2);
      if !ok {
        return;
      }
      ok := CreateNthDefault(saved, user, firstId, 3);
      if !ok {
        return;
      }
      ok := CreateNthDefault(saved, user, firstId, 4);
      if !ok {
        return;
      }
      assert DefaultLists(user, firstId)[..5] == DefaultLists(user, firstId);
    }

    /** The `i`-th insert of `create_default_lists`, rolling back to `saved`
        when it fails. */
    method CreateNthDefault(saved: seq<FeedsReadingList>, user: UserId, firstId: nat, i: int) returns (ok: bool)
      requires Valid()
      requires 0 <= i < 5
      requires rows == saved + DefaultLists(user, firstId)[..i] && nextId == firstId + i
      requires forall j :: 0 <= j < i ==> !Clashes(saved, DefaultLists(user, 0)[j])
      modifies this
      ensures Valid()
      ensures ok <==> !Clashes(saved, DefaultLists(user, 0)[i])
      ensures ok ==> rows == saved + DefaultLists(user, firstId)[..i + 1] && nextId == firstId + i + 1
      ensures !ok ==> rows == saved && !DefaultsFit(saved, user) && nextId == firstId + i
    {
      NthDefaultFitsAfterEarlierOnes(saved, user, firstId, i);
      var r := Create(DefaultLists(user, 0)[i]);
      if r.Failure? {
        assert forall j :: 0 <= j < |saved| ==> saved[j] == rows[j];
        rows := saved;
        return false;
      }
      DefaultStep(user, firstId, i);
      ok := true;
    }

    /** `ReadingList.delete()`: the default list is protected; any other
        list is removed. */
    method Delete(list: FeedsReadingList) returns (r: Result<(), string>)
      requires Valid()
      modifies this
      ensures Valid()
      ensures list.isDefault ==> r == Failure("Cannot delete default list") && rows == old(rows)
      ensures !list.isDefault ==> r.Success? && rows == Where(old(rows), (x: FeedsReadingList) => x.id != list.id)
      ensures nextId == old(nextId)
    {
      if list.isDefault {
        return Failure("Cannot delete default list");
      }
      var kept := Where(rows, (x: FeedsReadingList) => x.id != list.id);
      WhereKeepsConstraints(rows, (x: FeedsReadingList) => x.id != list.id);
      forall i | 0 <= i < |kept|
        ensures kept[i].id < nextId
      {
        assert kept[i] in rows;
      }
      rows := kept;
      r := Success(());
    }
  }

  /** While inserting the defaults one by one, no default clashes with the
      defaults inserted before it: the slugs differ and only one is the
      default. So the `i`-th insert fails exactly when it clashes with the
      rows that were there before. */
  lemma NthDefaultFitsAfterEarlierOnes(saved: seq<FeedsReadingList>, user: UserId, firstId: nat, i: int)
    requires 0 <= i < 5
    ensures Clashes(saved + DefaultLists(user, firstId)[..i], DefaultLists(user, 0)[i]) <==> Clashes(saved, DefaultLists(user, 0)[i])
  {
    var d, z := DefaultLists(user, firstId), DefaultLists(user, 0);
    var rows := saved + d[..i];
    if Clashes(rows, z[i]) {
      var j :| 0 <= j < |rows| && rows[j].user == z[i].user &&
        (rows[j].slug == z[i].slug || (rows[j].isDefault && z[i].isDefault));
      assert j < |saved|;
      assert rows[j] == saved[j];
    }
    if Clashes(saved, z[i]) {
      var j :| 0 <= j < |saved| && saved[j].user == z[i].user &&
        (saved[j].slug == z[i].slug || (saved[j].isDefault && z[i].isDefault));
      assert rows[j] == saved[j];
    }
  }

  lemma DefaultStep(user: UserId, firstId: nat, i: int)
    requires 0 <= i < 5
    ensures DefaultLists(user, 0)[i].(id := firstId + i) == DefaultLists(user, firstId)[i]
    ensures DefaultLists(user, firstId)[..i + 1] == DefaultLists(user, firstId)[..i] + [DefaultLists(user, firstId)[i]]
  {
  }

  lemma TailKeepsConstraints(rows: seq<FeedsReadingList>)
    requires |rows| > 0 && ConstraintsHold(rows)
    ensures ConstraintsHold(rows[1..])
  {
    var tail := rows[1..];
    forall i, j | 0 <= i < j < |tail|
      ensures tail[i].id != tail[j].id
    {
      assert tail[i] == rows[i + 1] && tail[j] == rows[j + 1];
    }
    forall i, j | 0 <= i < j < |tail| && tail[i].user == tail[j].user
      ensures tail[i].slug != tail[j].slug && !(tail[i].isDefault && tail[j].isDefault)
    {
      assert tail[i] == rows[i + 1] && tail[j] == rows[j + 1];
    }
  }

  /** A row at the head of a table satisfying the constraints shares no id,
      and no slug or default flag with another row of its user. */
  lemma HeadApart(rows: seq<FeedsReadingList>, x: FeedsReadingList)
    requires |rows| > 0 && ConstraintsHold(rows)
    requires x in rows[1..]
    ensures rows[0].id != x.id
    ensures rows[0].user == x.user ==> rows[0].slug != x.slug && !(rows[0].isDefault && x.isDefault)
  {
    var k :| 0 <= k < |rows[1..]| && rows[1..][k] == x;
    assert rows[k + 1] == x;
  }

  /** Filtering a table keeps its constraints. */
  lemma {:induction false} WhereKeepsConstraints(rows: seq<FeedsReadingList>, p: FeedsReadingList -> bool)
    requires ConstraintsHold(rows)
    ensures ConstraintsHold(Where(rows, p))
  {
    if |rows| > 0 {
      TailKeepsConstraints(rows);
      WhereKeepsConstraints(rows[1..], p);
      var rest := Where(rows[1..], p);
      if p(rows[0]) {
        var r := [rows[0]] + rest;
        assert Where(rows, p) == r;
        forall j | 0 < j < |r|
          ensures r[0].id != r[j].id
          ensures r[0].user == r[j].user ==> r[0].slug != r[j].slug && !(r[0].isDefault && r[j].isDefault)
        {
          assert r[j] == rest[j - 1];
          HeadApart(rows, r[j]);
        }
        assert forall i, j :: 0 < i < j < |r| ==> r[i] == rest[i - 1] && r[j] == rest[j - 1];
      } else {
        assert Where(rows, p) == rest;
      }
    }
  }

  // ---------------------------------------------------------------------
  // Properties

  /** Exactly one of the five defaults is the default list: "Unread", which
      shows only unread articles; "Recent" keeps two days of articles,
      "Favorite" the favorites, "Archive" the read ones, and "All articles"
      has no criteria. */
  lemma DefaultListsShape(user: UserId, firstId: nat)
    ensures var d := DefaultLists(user, firstId);
      && (forall i :: 0 <= i < 5 ==> (d[i].isDefault <==> i == 1))
      && d[1].name == "Unread" && d[1].readStatus == ReadStatus.OnlyUnread
      && d[2].maxAgeUnit == Days && d[2].maxAgeValue == 2
      && d[3].favoriteStatus == FavoriteStatus.OnlyFavorite
      && d[4].readStatus == ReadStatus.OnlyRead
      && d[0].readStatus == ReadStatus.All && d[0].favoriteStatus == FavoriteStatus.All && d[0].maxAgeUnit == AgeUnit.Unset
  {
  }

  /** Under the constraints, `get_reading_list` never finds two rows. */
  lemma NeverMultiple(rows: seq<FeedsReadingList>, user: UserId, slug: Option<string>)
    requires ConstraintsHold(rows)
    ensures GetReadingList(rows, user, slug) != Failure(MultipleObjectsReturned)
  {
    AtMostOneWanted(rows, user, slug);
  }

  lemma {:induction false} AtMostOneWanted(rows: seq<FeedsReadingList>, user: UserId, slug: Option<string>)
    requires ConstraintsHold(rows)
    ensures |Where(rows, (x: FeedsReadingList) => Wanted(user, slug, x))| <= 1
  {
    var p := (x: FeedsReadingList) => Wanted(user, slug, x);
    if |rows| > 0 {
      TailKeepsConstraints(rows);
      AtMostOneWanted(rows[1..], user, slug);
      if p(rows[0]) {
        forall x | x in rows[1..]
          ensures !p(x)
        {
          HeadApart(rows, x);
        }
        WhereOfNone(rows[1..], p);
      }
    }
  }

  /** Once the defaults are created, the user's default list is "Unread". */
  lemma DefaultLookupAfterCreation(rows: seq<FeedsReadingList>, user: UserId, firstId: nat)
    requires ConstraintsHold(rows) && forall i :: 0 <= i < |rows| ==> rows[i].id < firstId
    requires DefaultsFit(rows, user)
    ensures GetReadingList(rows + DefaultLists(user, firstId), user, None) == Success(DefaultLists(user, firstId)[1])
  {
    var all := rows + DefaultLists(user, firstId);
    var d := DefaultLists(user, firstId);
    var p := (x: FeedsReadingList) => Wanted(user, None, x);
    assert !Clashes(rows, DefaultLists(user, 0)[1]);
    assert forall x :: x in all && p(x) ==> x == d[1];
    assert forall i, j :: 0 <= i < j < |all| ==> all[i].id != all[j].id by {
      forall i, j | 0 <= i < j < |all|
        ensures all[i].id != all[j].id
      {
        if j < |rows| {
          assert all[i] == rows[i] && all[j] == rows[j];
        } else if i < |rows| {
          assert all[i] == rows[i] && all[j] == d[j - |rows|];
        } else {
          assert all[i] == d[i - |rows|] && all[j] == d[j - |rows|];
        }
      }
    }
    WhereOfOne(all, p, d[1]);
  }

  lemma {:induction false} WhereOfOne(rows: seq<FeedsReadingList>, p: FeedsReadingList -> bool, x: FeedsReadingList)
    requires x in rows && p(x)
    requires forall y :: y in rows && p(y) ==> y == x
    requires forall i, j :: 0 <= i < j < |rows| ==> rows[i].id != rows[j].id
    ensures Where(rows, p) == [x]
  {
    assert rows == [rows[0]] + rows[1..];
    if rows[0] == x {
      forall y | y in rows[1..]
        ensures !p(y)
      {
        var k :| 0 <= k < |rows[1..]| && rows[1..][k] == y;
        assert rows[k + 1] == y && rows[k + 1].id != rows[0].id;
      }
      WhereOfNone(rows[1..], p);
    } else {
      WhereOfOne(rows[1..], p, x);
    }
  }

  lemma {:induction false} WhereOfNone(rows: seq<FeedsReadingList>, p: FeedsReadingList -> bool)
    requires forall y :: y in rows ==> !p(y)
    ensures Where(rows, p) == []
  {
    if |rows| > 0 {
      assert rows == [rows[0]] + rows[1..];
      WhereOfNone(rows[1..], p);
    }
  }
}
