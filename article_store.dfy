/** The article table of the reading app together with the tag ledger and
    the fetch-error log, and the manager and queryset operations that read
    and change them: batch reconciliation, invalid-article creation, bulk
    actions, unread counts and reading-list listings. */
module ArticleStore {
  import opened Common
  import opened Time
  import opened Sorting
  import opened ReadingModel
  import opened TagLedger
  import opened ReadingFilters
  import opened ArticleMerge
  import opened ArticleBatch

  datatype FetchError = FetchError(article: ArticleKey, message: string, technicalDebugData: Option<string>)

  /** The tagging reason of a batch: FROM_FEED for a feed, ADDED_MANUALLY otherwise. */
  function ReasonFor(source: ArticleSourceType): (r: TaggingReason)
    ensures r == FromFeed <==> source == Feed
    ensures r != Deleted
  {
    if source == Feed then FromFeed else AddedManually
  }

  // ---------------------------------------------------------------------
  // Batch reconciliation, with the merge of the reading app.

  /** How `update_or_create_from_articles_list` merges a record into a
      stored article. */
  function Reconciler(source: ArticleSourceType, force: bool, wordsPerMinute: nat, ops: TextOps, now: Instant): (f: Merger)
    requires wordsPerMinute > 0
    ensures forall a, d :: f(a, d) == ReconcileExisting(a, d, source, force, wordsPerMinute, ops, now)
  {
    (a, d) => ReconcileExisting(a, d, source, force, wordsPerMinute, ops, now)
  }

  /** How `update_or_create_from_articles_list` builds a new article. */
  function NewArticles(user: UserId, source: ArticleSourceType, wordsPerMinute: nat, ops: TextOps, now: Instant): (f: Creator)
    requires wordsPerMinute > 0
    ensures forall d :: f(d) == NewArticle(user, d, source, wordsPerMinute, ops, now)
  {
    d => NewArticle(user, d, source, wordsPerMinute, ops, now)
  }

  lemma RealMergeKeepsKeys(user: UserId, source: ArticleSourceType, force: bool, wordsPerMinute: nat, ops: TextOps, now: Instant)
    requires wordsPerMinute > 0
    ensures KeepsKeys(user, Reconciler(source, force, wordsPerMinute, ops, now), NewArticles(user, source, wordsPerMinute, ops, now))
  {
  }

  /** The new rows of a batch are built from the first record of each link
      and carry the computed reading time. */
  lemma BatchCreatesFromFirstRecord(stored: Articles, user: UserId, batch: seq<ArticleData>, source: ArticleSourceType,
                                    force: bool, wordsPerMinute: nat, ops: TextOps, now: Instant, i: int)
    requires wordsPerMinute > 0
    requires 0 <= i < |batch|
    requires forall j :: 0 <= j < i ==> batch[j].link != batch[i].link
    requires ArticleKey(user, batch[i].link) !in stored
    ensures var r := StoreAfterBatch(stored, user, batch, Reconciler(source, force, wordsPerMinute, ops, now),
                                     NewArticles(user, source, wordsPerMinute, ops, now));
      && ArticleKey(user, batch[i].link) in r
      && r[ArticleKey(user, batch[i].link)] == NewArticle(user, batch[i], source, wordsPerMinute, ops, now)
  {
    FirstWithLinkAt(batch, i);
    assert ArticleKey(user, batch[i].link) in BatchKeys(user, batch);
  }

  /** A manual addition of a stored article marks it unread and MANUAL in
      the table; rows outside the batch are untouched. */
  lemma BatchManualOverride(stored: Articles, user: UserId, batch: seq<ArticleData>,
                            force: bool, wordsPerMinute: nat, ops: TextOps, now: Instant, k: ArticleKey)
    requires wordsPerMinute > 0
    requires k in stored
    ensures var r := StoreAfterBatch(stored, user, batch, Reconciler(Manual, force, wordsPerMinute, ops, now),
                                     NewArticles(user, Manual, wordsPerMinute, ops, now));
      && k in r
      && (k.user == user && k.link in Links(batch) ==>
            r[k].readAt.None? && r[k].mainSourceType == Manual && r[k].objUpdatedAt == now)
      && (k.user != user || k.link !in Links(batch) ==> r[k] == stored[k])
  {
    var r := StoreAfterBatch(stored, user, batch, Reconciler(Manual, force, wordsPerMinute, ops, now),
                             NewArticles(user, Manual, wordsPerMinute, ops, now));
    if k.user == user && k.link in Links(batch) {
      var d := FirstWithLink(batch, k.link);
      ManualOverride(stored[k], d, force, wordsPerMinute, ops, now);
    }
  }

  /** A new article keeps its incoming title untruncated, so a batch whose
      first record for an unknown link has a title longer than the column
      holds a row that does not fit, and the batch fails. */
  lemma LongNewTitleFailsBatch(stored: Articles, user: UserId, batch: seq<ArticleData>, source: ArticleSourceType,
                               force: bool, wordsPerMinute: nat, ops: TextOps, now: Instant, i: int)
    requires wordsPerMinute > 0
    requires 0 <= i < |batch|
    requires forall j :: 0 <= j < i ==> batch[j].link != batch[i].link
    requires ArticleKey(user, batch[i].link) !in stored
    requires |batch[i].title| > ArticleTitleMaxLength
    ensures !AllFit(StoreAfterBatch(stored, user, batch, Reconciler(source, force, wordsPerMinute, ops, now),
                                    NewArticles(user, source, wordsPerMinute, ops, now)))
  {
    BatchCreatesFromFirstRecord(stored, user, batch, source, force, wordsPerMinute, ops, now, i);
  }

  // ---------------------------------------------------------------------
  // Bulk actions, specified.

  /** The rows the UPDATE of `update_articles_from_action` matches. */
  function Touched(m: Articles, selection: set<ArticleKey>, action: UpdateArticleAction): (r: set<ArticleKey>)
    ensures r <= selection && r <= m.Keys
  {
    match action
    case DoNothing => {}
    case MarkAsRead => set k | k in m && k in selection && m[k].readAt.None?
    case MarkAsOpened => set k | k in m && k in selection && m[k].openedAt.None?
    case _ => set k | k in m && k in selection
  }

  function ActOn(a: Article, action: UpdateArticleAction, now: Instant): Article {
    match action
    case DoNothing => a
    case MarkAsRead => a.(readAt := Some(now))
    case MarkAsUnread => a.(readAt := None)
    case MarkAsFavorite => a.(isFavorite := true)
    case UnmarkAsFavorite => a.(isFavorite := false)
    case MarkAsForLater => a.(isForLater := true)
    case UnmarkAsForLater => a.(isForLater := false)
    case MarkAsOpened => a.(openedAt := Some(now))
  }

  function ApplyAction(m: Articles, selection: set<ArticleKey>, action: UpdateArticleAction, now: Instant): (r: Articles)
    ensures r.Keys == m.Keys
  {
    var touched := Touched(m, selection, action);
    map k | k in m :: if k in touched then ActOn(m[k], action, now) else m[k]
  }

  /** DO_NOTHING changes nothing and touches no row. */
  lemma DoNothingChangesNothing(m: Articles, selection: set<ArticleKey>, now: Instant)
    ensures ApplyAction(m, selection, DoNothing, now) == m
    ensures |Touched(m, selection, DoNothing)| == 0
  {
  }

  /** MARK_AS_READ leaves every selected article read, keeps an earlier read
      date, and leaves unselected articles alone; the touched rows are the
      selected unread ones. MARK_AS_OPENED behaves the same on `opened_at`. */
  lemma MarkAsReadOutcome(m: Articles, selection: set<ArticleKey>, now: Instant)
    ensures var r := ApplyAction(m, selection, MarkAsRead, now);
      && (forall k :: k in m && k in selection ==> IsRead(r[k]))
      && (forall k :: k in m && m[k].readAt.Some? ==> r[k] == m[k])
      && (forall k :: k in m && k !in selection ==> r[k] == m[k])
      && (forall k :: k in Touched(m, selection, MarkAsRead) <==> k in m && k in selection && !IsRead(m[k]))
  {
  }

  lemma MarkAsOpenedOutcome(m: Articles, selection: set<ArticleKey>, now: Instant)
    ensures var r := ApplyAction(m, selection, MarkAsOpened, now);
      && (forall k :: k in m && k in selection ==> WasOpened(r[k]))
      && (forall k :: k in m && m[k].openedAt.Some? ==> r[k] == m[k])
      && (forall k :: k in m && k !in selection ==> r[k] == m[k])
  {
  }

  /** The flag actions set their flag on every selected article and touch
      every selected row. */
  lemma FlagActionsOutcome(m: Articles, selection: set<ArticleKey>, action: UpdateArticleAction, now: Instant)
    requires action in {MarkAsUnread, MarkAsFavorite, UnmarkAsFavorite, MarkAsForLater, UnmarkAsForLater}
    ensures Touched(m, selection, action) == m.Keys * selection
    ensures var r := ApplyAction(m, selection, action, now);
      forall k :: k in m && k in selection ==>
        && (action == MarkAsUnread ==> !IsRead(r[k]))
        && (action == MarkAsFavorite ==> r[k].isFavorite)
        && (action == UnmarkAsFavorite ==> !r[k].isFavorite)
        && (action == MarkAsForLater ==> r[k].isForLater)
        && (action == UnmarkAsForLater ==> !r[k].isForLater)
  {
  }

  /** No action moves an article to another key. */
  lemma ApplyActionKeepsKeys(m: Articles, selection: set<ArticleKey>, action: UpdateArticleAction, now: Instant)
    requires KeysConsistent(m)
    ensures KeysConsistent(ApplyAction(m, selection, action, now))
  {
  }

  // ---------------------------------------------------------------------
  // Unread counts and listings.

  /** The user's unread articles that the list's filter keeps. */
  function UnreadMatching(m: Articles, ledger: Ledger, user: UserId, rl: ReadingList, now: DateTime): set<ArticleKey>
    requires ValidDateTime(now)
  {
    set k | k in m && k.user == user && !IsRead(m[k]) && HoldsAll(BuildFilters(rl, now), m[k], ActiveTagIds(ledger, k))
  }

  function Slugs(lists: seq<ReadingList>): set<string> {
    set i | 0 <= i < |lists| :: lists[i].slug
  }

  /** `count_unread_articles_of_reading_lists`: one entry per slug; when two
      lists share a slug the later one wins, as in the dict comprehension. */
  function CountUnread(m: Articles, ledger: Ledger, user: UserId, lists: seq<ReadingList>, now: DateTime): (r: map<string, nat>)
    requires ValidDateTime(now)
    ensures r.Keys == Slugs(lists)
  {
    if |lists| == 0 then map[]
    else
      var last := lists[|lists| - 1];
      SlugsSnoc(lists);
      CountUnread(m, ledger, user, lists[..|lists| - 1], now)[last.slug := |UnreadMatching(m, ledger, user, last, now)|]
  }

  lemma SlugsSnoc(lists: seq<ReadingList>)
    requires |lists| > 0
    ensures Slugs(lists) == Slugs(lists[..|lists| - 1]) + {lists[|lists| - 1].slug}
  {
    var init := lists[..|lists| - 1];
    assert forall i :: 0 <= i < |init| ==> init[i] == lists[i];
    forall s | s in Slugs(lists)
      ensures s in Slugs(init) + {lists[|lists| - 1].slug}
    {
      var i :| 0 <= i < |lists| && lists[i].slug == s;
      if i < |init| {
        assert init[i].slug == s;
      }
    }
  }

  /** The count of a slug is the count of the last list that has it. */
  lemma {:induction false} CountUnreadLastWins(m: Articles, ledger: Ledger, user: UserId, lists: seq<ReadingList>, now: DateTime, i: int)
    requires ValidDateTime(now)
    requires 0 <= i < |lists|
    requires forall j :: i < j < |lists| ==> lists[j].slug != lists[i].slug
    ensures lists[i].slug in CountUnread(m, ledger, user, lists, now)
    ensures CountUnread(m, ledger, user, lists, now)[lists[i].slug] == |UnreadMatching(m, ledger, user, lists[i], now)|
  {
    var init := lists[..|lists| - 1];
    if i < |lists| - 1 {
      assert init[i] == lists[i];
      assert forall j :: i < j < |init| ==> init[j] == lists[j];
      CountUnreadLastWins(m, ledger, user, init, now, i);
    }
  }

  /** A count only includes the user's unread articles that match the list
      as a reading list describes it. */
  lemma UnreadMatchingIsDeclarative(m: Articles, ledger: Ledger, user: UserId, rl: ReadingList, now: DateTime, k: ArticleKey)
    requires ValidDateTime(now)
    ensures k in UnreadMatching(m, ledger, user, rl, now) <==>
      k in m && k.user == user && !IsRead(m[k]) && Matches(rl, m[k], ActiveTagIds(ledger, k), now)
  {
    if k in m {
      FiltersAgree(rl, m[k], ActiveTagIds(ledger, k), now);
    }
  }

  /** A list of read articles only has no unread article to count. */
  lemma ReadOnlyListCountsZero(m: Articles, ledger: Ledger, user: UserId, rl: ReadingList, now: DateTime)
    requires ValidDateTime(now)
    requires rl.readStatus == ReadStatus.OnlyRead
    ensures UnreadMatching(m, ledger, user, rl, now) == {}
  {
    forall k | k in m && k.user == user && !IsRead(m[k])
      ensures k !in UnreadMatching(m, ledger, user, rl, now)
    {
      UnreadMatchingIsDeclarative(m, ledger, user, rl, now, k);
    }
  }

  /** No count exceeds the number of the user's unread articles. */
  lemma CountBoundedByUnread(m: Articles, ledger: Ledger, user: UserId, rl: ReadingList, now: DateTime)
    requires ValidDateTime(now)
    ensures |UnreadMatching(m, ledger, user, rl, now)| <= |set k | k in m && k.user == user && !IsRead(m[k])|
  {
    var all := set k | k in m && k.user == user && !IsRead(m[k]);
    assert UnreadMatching(m, ledger, user, rl, now) <= all;
    SubsetCard(UnreadMatching(m, ledger, user, rl, now), all);
  }

  lemma {:induction false} SubsetCard<T>(a: set<T>, b: set<T>)
    requires a <= b
    ensures |a| <= |b|
    decreases |b|
  {
    if a != {} {
      var x :| x in a;
      SubsetCard(a - {x}, b - {x});
    }
  }

  /** The rows `get_articles_of_reading_list` selects. */
  function ListingKeys(m: Articles, ledger: Ledger, rl: ReadingList, now: DateTime): (r: set<ArticleKey>)
    requires ValidDateTime(now)
    ensures r <= m.Keys
    ensures forall k :: k in r <==> k in m && k.user == rl.user && Matches(rl, m[k], ActiveTagIds(ledger, k), now)
  {
    var r := set k | k in m && k.user == rl.user && HoldsAll(BuildFilters(rl, now), m[k], ActiveTagIds(ledger, k));
    assert forall k :: k in m ==> (HoldsAll(BuildFilters(rl, now), m[k], ActiveTagIds(ledger, k)) <==> Matches(rl, m[k], ActiveTagIds(ledger, k), now)) by {
      forall k | k in m {
        FiltersAgree(rl, m[k], ActiveTagIds(ledger, k), now);
      }
    }
    r
  }

  /** `get_articles_of_reading_list`: the list owner's articles the filter
      keeps, sorted by `default_order_by(order_direction)`. Rows with equal
      sort keys may come in any order. */
  ghost function ArticlesOfReadingList(m: Articles, ledger: Ledger, rl: ReadingList, now: DateTime): (r: seq<Article>)
    requires ValidDateTime(now)
    requires KeysConsistent(m)
    ensures SortedBy(r, ArticleOrder(rl.orderDirection))
    ensures |r| == |ListingKeys(m, ledger, rl, now)|
    ensures forall a :: a in r <==>
      (KeyOf(a) in m && m[KeyOf(a)] == a && a.user == rl.user && Matches(rl, a, ActiveTagIds(ledger, KeyOf(a)), now))
  {
    var rows := ValuesUnder(m, ListingKeys(m, ledger, rl, now), KeyOf);
    ArticleOrderIsTotalPreorder(rl.orderDirection);
    var r := SortBy(rows, ArticleOrder(rl.orderDirection));
    SameMembers(r, rows);
    r
  }

  // ---------------------------------------------------------------------
  // The store.

  /** The article of `create_invalid_article`: only the link and a title
      made from it; every other column takes its default, the slug comes
      from `save()` and `main_source_type` defaults to FEED. */
  function InvalidArticle(user: UserId, link: Link, ops: TextOps, now: Instant): (r: Article)
    ensures KeyOf(r) == ArticleKey(user, link)
    ensures !IsRead(r) && r.content == "" && r.readingTime == 0
  {
    Save(Article(
      user := user, link := link, title := ops.sanitize(link), slug := "", summary := "", content := "",
      readingTime := 0, authors := [], contributors := [], externalTags := [],
      previewPictureUrl := "", previewPictureAlt := "", externalArticleId := "", language := "",
      readAt := None, openedAt := None, isFavorite := false, isForLater := false,
      mainSourceType := Feed, mainSourceTitle := "", publishedAt := None, updatedAt := None,
      objCreatedAt := now, objUpdatedAt := now), ops, now)
  }

  /** The invalid article fits its columns exactly when the sanitized link,
      the slug made from it and the link itself are short enough: a link
      of more than 255 characters that sanitizing keeps fails. */
  lemma InvalidArticleFits(user: UserId, link: Link, ops: TextOps, now: Instant)
    ensures FitsColumns(InvalidArticle(user, link, ops, now)) <==>
      && |ops.sanitize(link)| <= ArticleTitleMaxLength
      && |ops.slugify(ops.sanitize(link))| <= ArticleTitleMaxLength
      && |link| <= ArticleLinkMaxLength
  {
  }

  class Store {
    var articles: Articles
    var ledger: Ledger
    var fetchErrors: seq<FetchError>

    ghost predicate Valid()
      reads this
    {
      KeysConsistent(articles) && AllFit(articles)
    }

    constructor ()
      ensures Valid()
      ensures articles == map[] && ledger == map[] && fetchErrors == []
    {
      articles := map[];
      ledger := map[];
      fetchErrors := [];
    }

    /** `update_or_create_from_articles_list`: the returned articles are
        the new ones followed by the stored ones the batch names, each the
        outcome of its link; the whole batch is tagged with `tags`. When a
        row to write does not fit its columns (a new article keeps its
        title untruncated), the insert or update raises and the
        transaction leaves the table and the tags as they were. */
    method UpdateOrCreateFromArticlesList(user: UserId, batch: seq<ArticleData>, tags: set<TagId>, source: ArticleSourceType,
                                          force: bool, wordsPerMinute: nat, ops: TextOps, now: Instant)
      returns (result: Result<seq<Article>, DbError>)
      requires Valid()
      requires wordsPerMinute > 0
      modifies this
      ensures Valid()
      ensures fetchErrors == old(fetchErrors)
      ensures |batch| == 0 ==> result == Success([]) && articles == old(articles) && ledger == old(ledger)
      ensures |batch| > 0 ==>
        var after := StoreAfterBatch(old(articles), user, batch, Reconciler(source, force, wordsPerMinute, ops, now),
                                     NewArticles(user, source, wordsPerMinute, ops, now));
        && (!AllFit(after) ==> result == Failure(DataError) && articles == old(articles) && ledger == old(ledger))
        && (AllFit(after) ==>
              && result.Success?
              && articles == after
              && ledger == Associate(old(ledger), BatchKeys(user, batch), tags, ReasonFor(source), false))
      ensures result.Success? ==>
        && (forall i :: 0 <= i < |result.value| ==>
              && result.value[i].user == user && result.value[i].link in Links(batch)
              && result.value[i] == Outcome(old(articles), user, batch, Reconciler(source, force, wordsPerMinute, ops, now),
                                            NewArticles(user, source, wordsPerMinute, ops, now), result.value[i].link).article)
        && (forall l :: l in Links(batch) ==> exists i :: 0 <= i < |result.value| && result.value[i].link == l)
        && (forall i, j :: 0 <= i < j < |result.value| ==> result.value[i].link != result.value[j].link)
        && (exists n :: NewRowsFirst(result.value, old(articles), n))
    {
      if |batch| == 0 {
        assert NewRowsFirst([], articles, 0);
        return Success([]);
      }
      var merge := Reconciler(source, force, wordsPerMinute, ops, now);
      var create := NewArticles(user, source, wordsPerMinute, ops, now);
      RealMergeKeepsKeys(user, source, force, wordsPerMinute, ops, now);
      var existing, toCreate, toUpdate := ClassifyBatch(articles, user, batch, merge, create);
      BulkWriteMatches(articles, user, batch, merge, create, existing, toCreate, toUpdate);
      var stored := EnumerateValues(existing);
      BatchResultCovers(articles, user, batch, merge, create, existing, toCreate, toUpdate, stored);
      var written := BulkWrite(articles, toCreate, toUpdate);
      if !AllFit(written) {
        return Failure(DataError);
      }
      result := Success(toCreate + stored);
      articles := written;
      ledger := Associate(ledger, BatchKeys(user, batch), tags, ReasonFor(source), false);
    }

    /** `create_invalid_article`: the article is created (and tagged) only
        when (user, link) is new; a fetch error is recorded each time. When
        the new article does not fit its columns (its title is the whole
        sanitized link) the insert raises and the transaction records
        nothing. The result is the article and whether it was created. */
    method CreateInvalidArticle(user: UserId, link: Link, tags: set<TagId>, errorMessage: string,
                                technicalDebugData: Option<string>, ops: TextOps, now: Instant)
      returns (result: Result<(Article, bool), DbError>)
      requires Valid()
      modifies this
      ensures Valid()
      ensures result.Failure? <==>
        ArticleKey(user, link) !in old(articles) && !FitsColumns(InvalidArticle(user, link, ops, now))
      ensures result.Failure? ==>
        articles == old(articles) && ledger == old(ledger) && fetchErrors == old(fetchErrors)
      ensures result.Success? ==>
        var (article, created) := result.value;
        && (created <==> ArticleKey(user, link) !in old(articles))
        && (!created ==> article == old(articles)[ArticleKey(user, link)] && articles == old(articles) && ledger == old(ledger))
        && (created ==>
              && article == InvalidArticle(user, link, ops, now)
              && articles == old(articles)[ArticleKey(user, link) := article]
              && ledger == Associate(old(ledger), {ArticleKey(user, link)}, tags, AddedManually, false))
        && fetchErrors == old(fetchErrors) + [FetchError(ArticleKey(user, link), errorMessage, technicalDebugData)]
    {
      var k := ArticleKey(user, link);
      var article, created;
      if k in articles {
        article := articles[k];
        created := false;
      } else {
        article := InvalidArticle(user, link, ops, now);
        if !FitsColumns(article) {
          return Failure(DataError);
        }
        created := true;
        articles := articles[k := article];
        ledger := Associate(ledger, {k}, tags, AddedManually, false);
      }
      fetchErrors := fetchErrors + [FetchError(k, errorMessage, technicalDebugData)];
      result := Success((article, created));
    }

    /** `update_articles_from_action` on the rows `selection` matches; the
        result is the number of rows the UPDATE touched. */
    method UpdateArticlesFromAction(selection: set<ArticleKey>, action: UpdateArticleAction, now: Instant)
      returns (count: nat)
      requires Valid()
      modifies this
      ensures Valid()
      ensures articles == ApplyAction(old(articles), selection, action, now)
      ensures count == |Touched(old(articles), selection, action)|
      ensures ledger == old(ledger) && fetchErrors == old(fetchErrors)
    {
      if action == DoNothing {
        return 0;
      }
      count := |Touched(articles, selection, action)|;
      ApplyActionKeepsKeys(articles, selection, action, now);
      articles := ApplyAction(articles, selection, action, now);
    }
  }
}
