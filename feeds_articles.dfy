/** The articles of the feeds app: rows keyed by the feed they come from
    and their id inside that feed, the conjunction a reading list compiles
    to (always starting with the owner of the feed), the listing of a
    reading list, and the bulk upsert of a fetched batch. */
module FeedsArticles {
  import opened Common
  import opened Time
  import opened Sorting
  import opened ReadingModel
  import opened FeedsReadingLists

  type FeedId = nat

  /** One article as the feed parser hands it over. */
  datatype FeedEntry = FeedEntry(
    articleFeedId: string,
    title: string,
    summary: string,
    content: string,
    authors: seq<string>,
    contributors: seq<string>,
    tags: seq<string>,
    link: string,
    publishedAt: Instant,
    updatedAt: Instant)

  datatype FeedsArticle = FeedsArticle(
    feed: FeedId,
    articleFeedId: string,
    title: string,
    summary: string,
    content: string,
    authors: seq<string>,
    contributors: seq<string>,
    tags: seq<string>,
    link: string,
    publishedAt: Instant,
    isRead: bool,
    wasOpened: bool,
    isFavorite: bool,
    createdAt: Instant,
    updatedAt: Instant)

  /** The unique constraint `article_unique_in_feed`. */
  datatype RowKey = RowKey(feed: FeedId, articleFeedId: string)

  type Rows = map<RowKey, FeedsArticle>

  function RowKeyOf(a: FeedsArticle): RowKey {
    RowKey(a.feed, a.articleFeedId)
  }

  ghost predicate RowsKeyed(rows: Rows) {
    forall k :: k in rows ==> RowKeyOf(rows[k]) == k
  }

  // ---------------------------------------------------------------------
  // The reading-list filter.

  /** One conjunct of `build_filters_from_reading_list`. */
  datatype Clause =
    | FeedOwnedBy(user: UserId)
    | IsReadIs(isRead: bool)
    | IsFavoriteIs(isFavorite: bool)
    | PublishedAfter(threshold: Instant)

  /** SQL evaluation of one clause; `owners` maps each feed to its user. */
  predicate Holds(c: Clause, a: FeedsArticle, owners: map<FeedId, UserId>) {
    match c
    case FeedOwnedBy(u) => a.feed in owners && owners[a.feed] == u
    case IsReadIs(b) => a.isRead == b
    case IsFavoriteIs(b) => a.isFavorite == b
    case PublishedAfter(t) => a.publishedAt > t
  }

  predicate HoldsAll(cs: seq<Clause>, a: FeedsArticle, owners: map<FeedId, UserId>) {
    forall i :: 0 <= i < |cs| ==> Holds(cs[i], a, owners)
  }

  /** `build_filters_from_reading_list` at time `now`: the owner clause,
      then the read, favorite and age clauses the list asks for. */
  function BuildFilters(rl: FeedsReadingList, now: DateTime): (cs: seq<Clause>)
    requires ValidDateTime(now)
    ensures |cs| >= 1 && cs[0] == FeedOwnedBy(rl.user)
  {
    [FeedOwnedBy(rl.user)]
    + (match rl.readStatus
       case OnlyRead => [IsReadIs(true)]
       case OnlyUnread => [IsReadIs(false)]
       case All => [])
    + (match rl.favoriteStatus
       case OnlyFavorite => [IsFavoriteIs(true)]
       case OnlyNonFavorite => [IsFavoriteIs(false)]
       case All => [])
    + (if rl.maxAgeUnit != AgeUnit.Unset then [PublishedAfter(NowMinus(now, rl.maxAgeUnit, rl.maxAgeValue))] else [])
  }

  /** The selection a reading list stands for, stated without clauses. */
  ghost predicate Matches(rl: FeedsReadingList, a: FeedsArticle, owners: map<FeedId, UserId>, now: DateTime)
    requires ValidDateTime(now)
  {
    && a.feed in owners && owners[a.feed] == rl.user
    && (rl.readStatus == ReadStatus.OnlyRead ==> a.isRead)
    && (rl.readStatus == ReadStatus.OnlyUnread ==> !a.isRead)
    && (rl.favoriteStatus == FavoriteStatus.OnlyFavorite ==> a.isFavorite)
    && (rl.favoriteStatus == FavoriteStatus.OnlyNonFavorite ==> !a.isFavorite)
    && (rl.maxAgeUnit != AgeUnit.Unset ==> a.publishedAt > NowMinus(now, rl.maxAgeUnit, rl.maxAgeValue))
  }

  /** The compiled conjunction and the declarative selection agree on
      every article. */
  lemma FiltersAgree(rl: FeedsReadingList, a: FeedsArticle, owners: map<FeedId, UserId>, now: DateTime)
    requires ValidDateTime(now)
    ensures HoldsAll(BuildFilters(rl, now), a, owners) <==> Matches(rl, a, owners, now)
  {
    var cs := BuildFilters(rl, now);
    if Matches(rl, a, owners, now) {
      forall i | 0 <= i < |cs|
        ensures Holds(cs[i], a, owners)
      {
      }
    }
    if HoldsAll(cs, a, owners) {
      var j := 1;
      if rl.readStatus != ReadStatus.All {
        assert Holds(cs[j], a, owners);
        j := j + 1;
      }
      if rl.favoriteStatus != FavoriteStatus.All {
        assert Holds(cs[j], a, owners);
        j := j + 1;
      }
      if rl.maxAgeUnit != AgeUnit.Unset {
        assert Holds(cs[j], a, owners);
      }
      assert Holds(cs[0], a, owners);
    }
  }

  /** A list with no criteria keeps exactly the articles of the user's
      feeds. */
  lemma NoCriteriaMeansOwnerOnly(rl: FeedsReadingList, now: DateTime)
    requires ValidDateTime(now)
    requires rl.readStatus == ReadStatus.All && rl.favoriteStatus == FavoriteStatus.All && rl.maxAgeUnit == AgeUnit.Unset
    ensures BuildFilters(rl, now) == [FeedOwnedBy(rl.user)]
  {
  }

  /** `order_by("-published_at")`. */
  predicate NewestFirst(a: FeedsArticle, b: FeedsArticle) {
    a.publishedAt >= b.publishedAt
  }

  lemma NewestFirstIsTotalPreorder()
    ensures IsTotalPreorder(NewestFirst)
  {
  }

  /** The rows the feeds app's `get_articles_of_reading_list` selects. */
  function ListingKeys(rows: Rows, owners: map<FeedId, UserId>, rl: FeedsReadingList, now: DateTime): (r: set<RowKey>)
    requires ValidDateTime(now)
    ensures r <= rows.Keys
    ensures forall k :: k in r <==> k in rows && Matches(rl, rows[k], owners, now)
  {
    var r := set k | k in rows && HoldsAll(BuildFilters(rl, now), rows[k], owners);
    assert forall k :: k in rows ==> (HoldsAll(BuildFilters(rl, now), rows[k], owners) <==> Matches(rl, rows[k], owners, now)) by {
      forall k | k in rows {
        FiltersAgree(rl, rows[k], owners, now);
      }
    }
    r
  }

  /** `get_articles_of_reading_list`: the rows the filter keeps, newest
      first, one entry per selected row. Rows published at the same
      instant come in an order this model does not fix. */
  ghost function ArticlesOfReadingList(rows: Rows, owners: map<FeedId, UserId>, rl: FeedsReadingList, now: DateTime): (r: seq<FeedsArticle>)
    requires RowsKeyed(rows)
    requires ValidDateTime(now)
    ensures SortedBy(r, NewestFirst)
    ensures |r| == |ListingKeys(rows, owners, rl, now)|
    ensures forall a :: a in r <==> RowKeyOf(a) in rows && rows[RowKeyOf(a)] == a && Matches(rl, a, owners, now)
  {
    var selected := ValuesUnder(rows, ListingKeys(rows, owners, rl, now), RowKeyOf);
    NewestFirstIsTotalPreorder();
    var r := SortBy(selected, NewestFirst);
    SameMembers(r, selected);
    r
  }

  // ---------------------------------------------------------------------
  // The upsert.

  /** Two entries of one batch share their id in the feed. */
  predicate HasDuplicateIds(batch: seq<FeedEntry>) {
    exists i, j :: 0 <= i < j < |batch| && batch[i].articleFeedId == batch[j].articleFeedId
  }

  /** The `link` column is a `URLField()` of Django's default width. */
  const LinkMaxLength: nat := 200

  /** An entry of the batch has a link wider than its column. */
  predicate HasOverlongLink(batch: seq<FeedEntry>) {
    exists i :: 0 <= i < |batch| && |batch[i].link| > LinkMaxLength
  }

  function BatchKeys(feed: FeedId, batch: seq<FeedEntry>): (r: set<RowKey>)
    ensures forall k :: k in r <==> exists i :: 0 <= i < |batch| && k == RowKey(feed, batch[i].articleFeedId)
  {
    set i | 0 <= i < |batch| :: RowKey(feed, batch[i].articleFeedId)
  }

  /** The entry of the batch with the given id in the feed. */
  function EntryFor(batch: seq<FeedEntry>, articleFeedId: string): (e: FeedEntry)
    requires exists i :: 0 <= i < |batch| && batch[i].articleFeedId == articleFeedId
    ensures e in batch && e.articleFeedId == articleFeedId
  {
    if batch[0].articleFeedId == articleFeedId then batch[0]
    else
      assert exists i :: 1 <= i < |batch| && batch[i].articleFeedId == articleFeedId;
      assert exists i :: 0 <= i < |batch[1..]| && batch[1..][i].articleFeedId == articleFeedId by {
        var i :| 1 <= i < |batch| && batch[i].articleFeedId == articleFeedId;
        assert batch[1..][i - 1] == batch[i];
      }
      EntryFor(batch[1..], articleFeedId)
  }

  /** The row an entry inserts. `updated_at` is `auto_now`, so the value the
      parser read is ignored and the row gets the instant of the insert. */
  function Inserted(feed: FeedId, e: FeedEntry, now: Instant): (a: FeedsArticle)
    ensures RowKeyOf(a) == RowKey(feed, e.articleFeedId)
    ensures !a.isRead && !a.wasOpened && !a.isFavorite
  {
    FeedsArticle(feed, e.articleFeedId, e.title, e.summary, e.content, e.authors, e.contributors, e.tags,
                 e.link, e.publishedAt, false, false, false, now, now)
  }

  /** `ON CONFLICT DO UPDATE` with the listed `update_fields`: title,
      summary, content, authors, contributors, tags, link, published_at and
      updated_at (stamped `now`, as on insert); the reading flags and
      `created_at` stay as they were. */
  function Overwritten(old_: FeedsArticle, e: FeedEntry, now: Instant): (a: FeedsArticle)
    ensures RowKeyOf(a) == RowKeyOf(old_)
    ensures a.isRead == old_.isRead && a.wasOpened == old_.wasOpened && a.isFavorite == old_.isFavorite
    ensures a.createdAt == old_.createdAt
  {
    old_.(title := e.title, summary := e.summary, content := e.content, authors := e.authors,
          contributors := e.contributors, tags := e.tags, link := e.link, publishedAt := e.publishedAt,
          updatedAt := now)
  }

  /** The table after the bulk upsert of a batch without duplicate ids. */
  function Upserted(rows: Rows, feed: FeedId, batch: seq<FeedEntry>, now: Instant): (r: Rows)
    requires RowsKeyed(rows)
    ensures RowsKeyed(r)
    ensures r.Keys == rows.Keys + BatchKeys(feed, batch)
    ensures forall k :: k in rows && k !in BatchKeys(feed, batch) ==> r[k] == rows[k]
  {
    map k | k in rows.Keys + BatchKeys(feed, batch) ::
      if k in BatchKeys(feed, batch) then
        var e := EntryFor(batch, k.articleFeedId);
        if k in rows then Overwritten(rows[k], e, now) else Inserted(feed, e, now)
      else rows[k]
  }

  class FeedsArticleTable {
    var rows: Rows

    ghost predicate Valid()
      reads this
    {
      RowsKeyed(rows)
    }

    constructor ()
      ensures Valid() && rows == map[]
    {
      rows := map[];
    }

    /** `update_or_create_from_articles_list(articles_data, feed_id)`. An
        empty batch issues no query. Otherwise one `INSERT ... ON CONFLICT
        DO UPDATE` runs; PostgreSQL refuses the whole statement when two of
        its rows hit the same key or when a link is wider than its column,
        and then nothing changes. */
    method UpdateOrCreateFromArticlesList(batch: seq<FeedEntry>, feed: FeedId, now: Instant) returns (r: Result<(), string>)
      requires Valid()
      modifies this
      ensures Valid()
      ensures |batch| == 0 ==> r.Success? && rows == old(rows)
      ensures |batch| > 0 && HasDuplicateIds(batch) ==> r.Failure? && rows == old(rows)
      ensures |batch| > 0 && HasOverlongLink(batch) ==> r.Failure? && rows == old(rows)
      ensures |batch| > 0 && !HasDuplicateIds(batch) && !HasOverlongLink(batch) ==>
        r.Success? && rows == Upserted(old(rows), feed, batch, now)
    {
      if |batch| == 0 {
        return Success(());
      }
      if HasDuplicateIds(batch) {
        return Failure("ON CONFLICT DO UPDATE command cannot affect row a second time");
      }
      if HasOverlongLink(batch) {
        return Failure("value too long for type character varying(200)");
      }
      rows := Upserted(rows, feed, batch, now);
      r := Success(());
    }
  }

  // ---------------------------------------------------------------------
  // Properties of the upsert

  /** Each entry of a batch without duplicates is found by its id. */
  lemma EntryForFindsIt(batch: seq<FeedEntry>, i: int)
    requires !HasDuplicateIds(batch)
    requires 0 <= i < |batch|
    ensures EntryFor(batch, batch[i].articleFeedId) == batch[i]
  {
    var e := EntryFor(batch, batch[i].articleFeedId);
    var j :| 0 <= j < |batch| && batch[j] == e;
    assert j == i;
  }

  /** After the upsert every entry of the batch is a row, under its key,
      carrying the entry's content. A row that was there keeps its reading
      flags and creation date; a new row starts unread, unopened and not a
      favorite. */
  lemma UpsertStoresEveryEntry(rows: Rows, feed: FeedId, batch: seq<FeedEntry>, now: Instant, i: int)
    requires RowsKeyed(rows)
    requires !HasDuplicateIds(batch)
    requires 0 <= i < |batch|
    ensures var e, k := batch[i], RowKey(feed, batch[i].articleFeedId);
      var a := Upserted(rows, feed, batch, now)[k];
      && a.title == e.title && a.summary == e.summary && a.content == e.content
      && a.authors == e.authors && a.contributors == e.contributors && a.tags == e.tags
      && a.link == e.link && a.publishedAt == e.publishedAt && a.updatedAt == now
      && (k in rows ==> a.isRead == rows[k].isRead && a.wasOpened == rows[k].wasOpened
                        && a.isFavorite == rows[k].isFavorite && a.createdAt == rows[k].createdAt)
      && (k !in rows ==> !a.isRead && !a.wasOpened && !a.isFavorite && a.createdAt == now)
  {
    var k := RowKey(feed, batch[i].articleFeedId);
    assert k in BatchKeys(feed, batch);
    EntryForFindsIt(batch, i);
  }

  /** The upsert never makes two rows for one (feed, id in feed): the table
      grows by exactly the keys it did not hold. */
  lemma UpsertGrowsByNewKeys(rows: Rows, feed: FeedId, batch: seq<FeedEntry>, now: Instant)
    requires RowsKeyed(rows)
    ensures |Upserted(rows, feed, batch, now)| == |rows| + |BatchKeys(feed, batch) - rows.Keys|
  {
    var r := Upserted(rows, feed, batch, now);
    assert r.Keys == rows.Keys + (BatchKeys(feed, batch) - rows.Keys);
    assert rows.Keys !! (BatchKeys(feed, batch) - rows.Keys);
  }

  /** Upserting the same batch twice, at the same instant, is the same as
      upserting it once. */
  lemma UpsertIsIdempotent(rows: Rows, feed: FeedId, batch: seq<FeedEntry>, now: Instant)
    requires RowsKeyed(rows)
    ensures var once := Upserted(rows, feed, batch, now);
      Upserted(once, feed, batch, now) == once
  {
    var once := Upserted(rows, feed, batch, now);
    var twice := Upserted(once, feed, batch, now);
    forall k | k in twice.Keys
      ensures twice[k] == once[k]
    {
    }
  }
}
