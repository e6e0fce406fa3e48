/** The loop of `update_or_create_from_articles_list`: a batch of article
    data is matched against the user's stored articles by link; the first
    record of each link either merges into the stored article or becomes a
    new one. The merge and the creation are parameters here, so that the
    bookkeeping is proved once, independently of how an article is merged. */
module ArticleBatch {
  import opened ReadingModel
  import opened ArticleMerge

  /** How a stored article absorbs a record, and how a record becomes a new
      article. */
  type Merger = (Article, ArticleData) -> MergeResult
  type Creator = ArticleData -> Article

  /** Neither function moves an article to another (user, link). */
  ghost predicate KeepsKeys(user: UserId, merge: Merger, create: Creator) {
    && (forall a, d :: KeyOf(merge(a, d).article) == KeyOf(a))
    && (forall d :: KeyOf(create(d)) == ArticleKey(user, d.link))
  }

  function Links(batch: seq<ArticleData>): set<Link> {
    set i | 0 <= i < |batch| :: batch[i].link
  }

  function BatchKeys(user: UserId, batch: seq<ArticleData>): set<ArticleKey> {
    set l | l in Links(batch) :: ArticleKey(user, l)
  }

  /** The first record of the batch with link `l`: the one the loop keeps. */
  function FirstWithLink(batch: seq<ArticleData>, l: Link): (r: ArticleData)
    requires l in Links(batch)
    ensures r.link == l
    ensures exists i :: 0 <= i < |batch| && batch[i] == r && forall j :: 0 <= j < i ==> batch[j].link != l
  {
    if batch[0].link == l then batch[0]
    else
      var i :| 0 <= i < |batch| && batch[i].link == l;
      assert batch[1..][i - 1].link == l;
      var r := FirstWithLink(batch[1..], l);
      assert forall i :: 0 <= i < |batch| - 1 ==> batch[1..][i] == batch[i + 1];
      r
  }

  lemma FirstWithLinkAt(batch: seq<ArticleData>, i: int)
    requires 0 <= i < |batch|
    requires forall j :: 0 <= j < i ==> batch[j].link != batch[i].link
    ensures batch[i].link in Links(batch)
    ensures FirstWithLink(batch, batch[i].link) == batch[i]
  {
    var r := FirstWithLink(batch, batch[i].link);
    var i0 :| 0 <= i0 < |batch| && batch[i0] == r && forall j :: 0 <= j < i0 ==> batch[j].link != batch[i].link;
    assert i0 == i;
  }

  /** What becomes of the article with link `l`: the merge of the stored
      article with the first record of `l`, or a new article from it. */
  function Outcome(stored: Articles, user: UserId, batch: seq<ArticleData>, merge: Merger, create: Creator, l: Link): (r: MergeResult)
    requires l in Links(batch)
    ensures ArticleKey(user, l) !in stored ==> r.updated
  {
    var d := FirstWithLink(batch, l);
    var k := ArticleKey(user, l);
    if k in stored then merge(stored[k], d) else MergeResult(true, create(d))
  }

  /** The article table after the batch: new rows for unknown links, the
      `bulk_update` fields written back for stored articles whose merge
      updated them, and every other row as it was. */
  function StoreAfterBatch(stored: Articles, user: UserId, batch: seq<ArticleData>, merge: Merger, create: Creator): (r: Articles)
    ensures r.Keys == stored.Keys + BatchKeys(user, batch)
    ensures forall k :: k in stored && r[k] != stored[k] ==>
      k.user == user && k.link in Links(batch) && Outcome(stored, user, batch, merge, create, k.link).updated
    ensures forall k :: k in stored ==> SameUnlistedColumns(r[k], stored[k])
  {
    map k | k in stored.Keys + BatchKeys(user, batch) ::
      if k.user == user && k.link in Links(batch) then
        var o := Outcome(stored, user, batch, merge, create, k.link);
        if k !in stored then o.article
        else if o.updated then Persist(stored[k], o.article)
        else stored[k]
      else stored[k]
  }

  /** The first `n` rows of `result` are new, the rest were stored. */
  predicate NewRowsFirst(result: seq<Article>, stored: Articles, n: int) {
    && 0 <= n <= |result|
    && (forall i :: 0 <= i < n ==> KeyOf(result[i]) !in stored)
    && (forall i :: n <= i < |result| ==> KeyOf(result[i]) in stored)
  }

  // ---------------------------------------------------------------------
  // The loop.

  /** What the loop has built once the links `seen` are handled: `existing`
      holds the user's stored articles with a link of the batch, merged
      when their link was seen; `toUpdate` those whose merge updated them;
      `toCreate` one new article per seen link that was not stored, each
      link once. */
  ghost predicate Classified(stored: Articles, user: UserId, batch: seq<ArticleData>, merge: Merger, create: Creator,
                             seen: set<Link>, existing: Articles, toCreate: seq<Article>, toUpdate: Articles)
  {
    && seen <= Links(batch)
    && KeysConsistent(stored)
    && ExistingMerged(stored, user, batch, merge, create, seen, existing)
    && UpdatesQueued(stored, user, batch, merge, create, seen, existing, toUpdate)
    && CreatedRows(stored, user, batch, merge, create, seen, toCreate)
    && CreatedOnce(stored, user, seen, toCreate)
  }

  ghost predicate ExistingMerged(stored: Articles, user: UserId, batch: seq<ArticleData>, merge: Merger, create: Creator,
                                 seen: set<Link>, existing: Articles)
  {
    && existing.Keys == (set k | k in stored && k.user == user && k.link in Links(batch))
    && KeysConsistent(existing)
    && (forall k :: k in existing ==>
          existing[k] == (if k.link in seen then Outcome(stored, user, batch, merge, create, k.link).article else stored[k]))
  }

  ghost predicate UpdatesQueued(stored: Articles, user: UserId, batch: seq<ArticleData>, merge: Merger, create: Creator,
                                seen: set<Link>, existing: Articles, toUpdate: Articles)
    requires seen <= Links(batch)
  {
    && (forall k :: k in toUpdate <==> k in existing && k.link in seen && Outcome(stored, user, batch, merge, create, k.link).updated)
    && (forall k :: k in toUpdate ==> k in existing && toUpdate[k] == existing[k])
  }

  ghost predicate CreatedRows(stored: Articles, user: UserId, batch: seq<ArticleData>, merge: Merger, create: Creator,
                              seen: set<Link>, toCreate: seq<Article>)
    requires seen <= Links(batch)
  {
    && (forall j :: 0 <= j < |toCreate| ==> toCreate[j].user == user && toCreate[j].link in seen)
    && (forall j :: 0 <= j < |toCreate| ==>
          KeyOf(toCreate[j]) !in stored && toCreate[j] == Outcome(stored, user, batch, merge, create, toCreate[j].link).article)
  }

  ghost predicate CreatedOnce(stored: Articles, user: UserId, seen: set<Link>, toCreate: seq<Article>) {
    && (forall l :: l in seen && ArticleKey(user, l) !in stored ==> exists j :: 0 <= j < |toCreate| && toCreate[j].link == l)
    && (forall j1, j2 :: 0 <= j1 < j2 < |toCreate| ==> toCreate[j1].link != toCreate[j2].link)
  }

  /** The outcome of the first record of a link not seen before. */
  lemma OutcomeAtFirst(stored: Articles, user: UserId, batch: seq<ArticleData>, merge: Merger, create: Creator, i: int)
    requires 0 <= i < |batch|
    requires forall j :: 0 <= j < i ==> batch[j].link != batch[i].link
    ensures batch[i].link in Links(batch)
    ensures var k := ArticleKey(user, batch[i].link);
      Outcome(stored, user, batch, merge, create, batch[i].link) ==
        if k in stored then merge(stored[k], batch[i]) else MergeResult(true, create(batch[i]))
  {
    FirstWithLinkAt(batch, i);
  }

  /** A stored article's link is seen for the first time: it is merged. */
  lemma ClassifiedMerge(stored: Articles, user: UserId, batch: seq<ArticleData>, merge: Merger, create: Creator,
                        seen: set<Link>, existing: Articles, toCreate: seq<Article>, toUpdate: Articles, i: int)
    requires KeepsKeys(user, merge, create)
    requires Classified(stored, user, batch, merge, create, seen, existing, toCreate, toUpdate)
    requires 0 <= i < |batch| && batch[i].link !in seen
    requires forall j :: 0 <= j < i ==> batch[j].link != batch[i].link
    requires ArticleKey(user, batch[i].link) in existing
    ensures var k := ArticleKey(user, batch[i].link); var o := merge(existing[k], batch[i]);
      Classified(stored, user, batch, merge, create, seen + {batch[i].link}, existing[k := o.article], toCreate,
                 if o.updated then toUpdate[k := o.article] else toUpdate)
  {
    var l := batch[i].link;
    var k := ArticleKey(user, l);
    OutcomeAtFirst(stored, user, batch, merge, create, i);
    var o := merge(existing[k], batch[i]);
    assert existing[k] == stored[k];
    assert o == Outcome(stored, user, batch, merge, create, l);
    MergeKeepsExisting(stored, user, batch, merge, create, seen, existing, l, o);
    MergeKeepsUpdates(stored, user, batch, merge, create, seen, existing, toUpdate, l, o);
    MergeKeepsCreates(stored, user, batch, merge, create, seen, toCreate, l);
  }

  lemma MergeKeepsExisting(stored: Articles, user: UserId, batch: seq<ArticleData>, merge: Merger, create: Creator,
                           seen: set<Link>, existing: Articles, l: Link, o: MergeResult)
    requires KeepsKeys(user, merge, create)
    requires KeysConsistent(stored)
    requires l in Links(batch) && l !in seen
    requires ExistingMerged(stored, user, batch, merge, create, seen, existing)
    requires ArticleKey(user, l) in stored
    requires o == Outcome(stored, user, batch, merge, create, l)
    ensures ExistingMerged(stored, user, batch, merge, create, seen + {l}, existing[ArticleKey(user, l) := o.article])
  {
  }

  lemma MergeKeepsUpdates(stored: Articles, user: UserId, batch: seq<ArticleData>, merge: Merger, create: Creator,
                          seen: set<Link>, existing: Articles, toUpdate: Articles, l: Link, o: MergeResult)
    requires seen <= Links(batch)
    requires l in Links(batch) && l !in seen
    requires UpdatesQueued(stored, user, batch, merge, create, seen, existing, toUpdate)
    requires ArticleKey(user, l) in existing
    requires forall k :: k in existing ==> k.user == user
    requires o == Outcome(stored, user, batch, merge, create, l)
    ensures var k := ArticleKey(user, l);
      UpdatesQueued(stored, user, batch, merge, create, seen + {l}, existing[k := o.article],
                    if o.updated then toUpdate[k := o.article] else toUpdate)
  {
  }

  lemma MergeKeepsCreates(stored: Articles, user: UserId, batch: seq<ArticleData>, merge: Merger, create: Creator,
                          seen: set<Link>, toCreate: seq<Article>, l: Link)
    requires seen <= Links(batch)
    requires l in Links(batch)
    requires CreatedRows(stored, user, batch, merge, create, seen, toCreate)
    requires CreatedOnce(stored, user, seen, toCreate)
    requires ArticleKey(user, l) in stored
    ensures CreatedRows(stored, user, batch, merge, create, seen + {l}, toCreate)
    ensures CreatedOnce(stored, user, seen + {l}, toCreate)
  {
  }

  /** An unknown link is seen for the first time: a new article is queued. */
  lemma ClassifiedCreate(stored: Articles, user: UserId, batch: seq<ArticleData>, merge: Merger, create: Creator,
                         seen: set<Link>, existing: Articles, toCreate: seq<Article>, toUpdate: Articles, i: int)
    requires KeepsKeys(user, merge, create)
    requires Classified(stored, user, batch, merge, create, seen, existing, toCreate, toUpdate)
    requires 0 <= i < |batch| && batch[i].link !in seen
    requires forall j :: 0 <= j < i ==> batch[j].link != batch[i].link
    requires ArticleKey(user, batch[i].link) !in existing
    ensures Classified(stored, user, batch, merge, create, seen + {batch[i].link}, existing, toCreate + [create(batch[i])], toUpdate)
  {
    var l := batch[i].link;
    OutcomeAtFirst(stored, user, batch, merge, create, i);
    assert ArticleKey(user, l) !in stored;
    CreateKeepsRows(stored, user, batch, merge, create, seen, toCreate, l, create(batch[i]));
    CreateKeepsOnce(stored, user, seen, toCreate, l, create(batch[i]));
  }

  lemma CreateKeepsRows(stored: Articles, user: UserId, batch: seq<ArticleData>, merge: Merger, create: Creator,
                        seen: set<Link>, toCreate: seq<Article>, l: Link, a: Article)
    requires seen <= Links(batch)
    requires l in Links(batch)
    requires CreatedRows(stored, user, batch, merge, create, seen, toCreate)
    requires ArticleKey(user, l) !in stored
    requires KeyOf(a) == ArticleKey(user, l)
    requires a == Outcome(stored, user, batch, merge, create, l).article
    ensures CreatedRows(stored, user, batch, merge, create, seen + {l}, toCreate + [a])
  {
    var c := toCreate + [a];
    assert forall j :: 0 <= j < |toCreate| ==> c[j] == toCreate[j];
  }

  lemma CreateKeepsOnce(stored: Articles, user: UserId, seen: set<Link>, toCreate: seq<Article>, l: Link, a: Article)
    requires l !in seen
    requires forall j :: 0 <= j < |toCreate| ==> toCreate[j].link in seen
    requires CreatedOnce(stored, user, seen, toCreate)
    requires a.link == l
    ensures CreatedOnce(stored, user, seen + {l}, toCreate + [a])
  {
    var c := toCreate + [a];
    assert forall j :: 0 <= j < |toCreate| ==> c[j] == toCreate[j];
    forall l' | l' in seen + {l} && ArticleKey(user, l') !in stored
      ensures exists j :: 0 <= j < |c| && c[j].link == l'
    {
      if l' == l {
        assert c[|toCreate|].link == l;
      } else {
        var j :| 0 <= j < |toCreate| && toCreate[j].link == l';
        assert c[j].link == l';
      }
    }
  }

  /** One more record of the batch: its link joins the links seen so far,
      and a link not seen yet has no earlier record. */
  lemma SeenStep(batch: seq<ArticleData>, i: int, seen: set<Link>)
    requires 0 <= i < |batch|
    requires seen == Links(batch[..i])
    ensures batch[i].link in seen ==> seen == Links(batch[..i + 1])
    ensures batch[i].link !in seen ==> seen + {batch[i].link} == Links(batch[..i + 1])
    ensures batch[i].link !in seen ==> forall j :: 0 <= j < i ==> batch[j].link != batch[i].link
  {
    assert forall j :: 0 <= j < i ==> batch[..i + 1][j] == batch[..i][j] == batch[j];
    assert batch[..i + 1][i] == batch[i];
    assert Links(batch[..i + 1]) == Links(batch[..i]) + {batch[i].link};
  }

  /** The loop over the batch: each link is handled once, with its first
      record; a stored article is merged (and queued for `bulk_update`
      when the merge updated it), an unknown link queues a new article. */
  method ClassifyBatch(stored: Articles, user: UserId, batch: seq<ArticleData>, merge: Merger, create: Creator)
    returns (existing: Articles, toCreate: seq<Article>, toUpdate: Articles)
    requires KeysConsistent(stored)
    requires KeepsKeys(user, merge, create)
    ensures Classified(stored, user, batch, merge, create, Links(batch), existing, toCreate, toUpdate)
  {
    var links := Links(batch);
    existing := map k | k in stored && k.user == user && k.link in links :: stored[k];
    toCreate := [];
    toUpdate := map[];
    var seen: set<Link> := {};
    var i := 0;
    while i < |batch|
      invariant 0 <= i <= |batch|
      invariant seen == Links(batch[..i])
      invariant Classified(stored, user, batch, merge, create, seen, existing, toCreate, toUpdate)
    {
      existing, toCreate, toUpdate, seen := ClassifyRecord(stored, user, batch, merge, create, seen, existing, toCreate, toUpdate, i);
      i := i + 1;
    }
    assert batch[..i] == batch;
  }

  /** One pass of the loop body: a record whose link was seen is skipped. */
  method ClassifyRecord(stored: Articles, user: UserId, batch: seq<ArticleData>, merge: Merger, create: Creator,
                        seen: set<Link>, existing: Articles, toCreate: seq<Article>, toUpdate: Articles, i: int)
    returns (existing': Articles, toCreate': seq<Article>, toUpdate': Articles, seen': set<Link>)
    requires KeepsKeys(user, merge, create)
    requires 0 <= i < |batch|
    requires seen == Links(batch[..i])
    requires Classified(stored, user, batch, merge, create, seen, existing, toCreate, toUpdate)
    ensures seen' == Links(batch[..i + 1])
    ensures Classified(stored, user, batch, merge, create, seen', existing', toCreate', toUpdate')
  {
    var d := batch[i];
    SeenStep(batch, i, seen);
    if d.link in seen {
      existing', toCreate', toUpdate', seen' := existing, toCreate, toUpdate, seen;
      return;
    }
    seen' := seen + {d.link};
    var k := ArticleKey(user, d.link);
    if k in existing {
      ClassifiedMerge(stored, user, batch, merge, create, seen, existing, toCreate, toUpdate, i);
      var m := merge(existing[k], d);
      existing' := existing[k := m.article];
      toCreate' := toCreate;
      toUpdate' := if m.updated then toUpdate[k := m.article] else toUpdate;
    } else {
      ClassifiedCreate(stored, user, batch, merge, create, seen, existing, toCreate, toUpdate, i);
      existing' := existing;
      toCreate' := toCreate + [create(d)];
      toUpdate' := toUpdate;
    }
  }

  /** The values of `existing_links_to_articles`, in the order the
      dictionary holds them. */
  method EnumerateValues(m: Articles) returns (values: seq<Article>)
    requires KeysConsistent(m)
    ensures forall a :: a in values <==> KeyOf(a) in m && m[KeyOf(a)] == a
    ensures forall i, j :: 0 <= i < j < |values| ==> KeyOf(values[i]) != KeyOf(values[j])
    ensures |values| == |m.Keys|
  {
    values := [];
    var rest := m.Keys;
    while rest != {}
      invariant rest <= m.Keys
      invariant forall a :: a in values <==> KeyOf(a) in m.Keys - rest && m[KeyOf(a)] == a
      invariant forall i, j :: 0 <= i < j < |values| ==> KeyOf(values[i]) != KeyOf(values[j])
      invariant |values| + |rest| == |m.Keys|
      decreases |rest|
    {
      var k :| k in rest;
      values := values + [m[k]];
      rest := rest - {k};
    }
  }

  /** The rows `bulk_create` inserts, by key. */
  function Created(toCreate: seq<Article>): (r: Articles)
    requires forall j1, j2 :: 0 <= j1 < j2 < |toCreate| ==> toCreate[j1].link != toCreate[j2].link
    ensures r.Keys == set j | 0 <= j < |toCreate| :: KeyOf(toCreate[j])
    ensures forall j :: 0 <= j < |toCreate| ==> KeyOf(toCreate[j]) in r && r[KeyOf(toCreate[j])] == toCreate[j]
  {
    map j | 0 <= j < |toCreate| :: KeyOf(toCreate[j]) := toCreate[j]
  }

  /** `bulk_create` of the queued rows, then `bulk_update` of the merged
      ones, which writes the listed fields only. */
  function BulkWrite(stored: Articles, toCreate: seq<Article>, toUpdate: Articles): (r: Articles)
    requires forall j1, j2 :: 0 <= j1 < j2 < |toCreate| ==> toCreate[j1].link != toCreate[j2].link
    ensures r.Keys == stored.Keys + Created(toCreate).Keys
    ensures forall k :: k in r ==>
      r[k] == (var before := (stored + Created(toCreate))[k]; if k in toUpdate then Persist(before, toUpdate[k]) else before)
  {
    var all := stored + Created(toCreate);
    map k | k in all :: if k in toUpdate then Persist(all[k], toUpdate[k]) else all[k]
  }

  /** What the writes leave behind is the table `StoreAfterBatch` describes. */
  lemma BulkWriteMatches(stored: Articles, user: UserId, batch: seq<ArticleData>, merge: Merger, create: Creator,
                         existing: Articles, toCreate: seq<Article>, toUpdate: Articles)
    requires Classified(stored, user, batch, merge, create, Links(batch), existing, toCreate, toUpdate)
    ensures BulkWrite(stored, toCreate, toUpdate) == StoreAfterBatch(stored, user, batch, merge, create)
    ensures KeysConsistent(BulkWrite(stored, toCreate, toUpdate))
  {
    var final := BulkWrite(stored, toCreate, toUpdate);
    var created := Created(toCreate);
    CreatedKeys(stored, user, batch, merge, create, existing, toCreate, toUpdate, created);
    var expected := StoreAfterBatch(stored, user, batch, merge, create);
    ExpectedKeys(stored, user, batch, merge, create);
    UnionOfDifference(stored.Keys, BatchKeys(user, batch));
    forall k | k in final
      ensures final[k] == expected[k] && KeyOf(final[k]) == k
    {
      BatchRowMatches(stored, user, batch, merge, create, existing, toCreate, toUpdate, created, k);
    }
    MapExtensionality(final, expected);
  }

  lemma ExpectedKeys(stored: Articles, user: UserId, batch: seq<ArticleData>, merge: Merger, create: Creator)
    ensures StoreAfterBatch(stored, user, batch, merge, create).Keys == stored.Keys + BatchKeys(user, batch)
  {
  }

  lemma UnionOfDifference<T>(a: set<T>, b: set<T>)
    ensures a + (b - a) == a + b
  {
  }

  lemma MapExtensionality<K, V>(a: map<K, V>, b: map<K, V>)
    requires a.Keys == b.Keys
    requires forall k :: k in a ==> a[k] == b[k]
    ensures a == b
  {
  }

  lemma CreatedKeys(stored: Articles, user: UserId, batch: seq<ArticleData>, merge: Merger, create: Creator,
                    existing: Articles, toCreate: seq<Article>, toUpdate: Articles, created: Articles)
    requires Classified(stored, user, batch, merge, create, Links(batch), existing, toCreate, toUpdate)
    requires created.Keys == set j | 0 <= j < |toCreate| :: KeyOf(toCreate[j])
    ensures created.Keys == BatchKeys(user, batch) - stored.Keys
  {
    forall k | k in BatchKeys(user, batch) - stored.Keys
      ensures k in created.Keys
    {
      var l :| l in Links(batch) && k == ArticleKey(user, l);
      var j :| 0 <= j < |toCreate| && toCreate[j].link == l;
      assert KeyOf(toCreate[j]) == k;
    }
  }

  lemma BatchRowMatches(stored: Articles, user: UserId, batch: seq<ArticleData>, merge: Merger, create: Creator,
                        existing: Articles, toCreate: seq<Article>, toUpdate: Articles, created: Articles, k: ArticleKey)
    requires Classified(stored, user, batch, merge, create, Links(batch), existing, toCreate, toUpdate)
    requires created.Keys == BatchKeys(user, batch) - stored.Keys
    requires forall j :: 0 <= j < |toCreate| ==> KeyOf(toCreate[j]) in created && created[KeyOf(toCreate[j])] == toCreate[j]
    requires k in stored || k in created
    ensures var before := (stored + created)[k];
      var after := if k in toUpdate then Persist(before, toUpdate[k]) else before;
      && k in StoreAfterBatch(stored, user, batch, merge, create)
      && after == StoreAfterBatch(stored, user, batch, merge, create)[k]
      && KeyOf(after) == k
  {
    if k in created {
      assert toUpdate.Keys <= existing.Keys <= stored.Keys;
      CreatedRowMatches(stored, user, batch, merge, create, existing, toCreate, toUpdate, created, k);
    } else if k.user == user && k.link in Links(batch) {
      MergedRowMatches(stored, user, batch, merge, create, existing, toUpdate, k);
    } else {
      assert k !in existing && k !in toUpdate;
    }
  }

  lemma CreatedRowMatches(stored: Articles, user: UserId, batch: seq<ArticleData>, merge: Merger, create: Creator,
                          existing: Articles, toCreate: seq<Article>, toUpdate: Articles, created: Articles, k: ArticleKey)
    requires toUpdate.Keys <= stored.Keys
    requires CreatedRows(stored, user, batch, merge, create, Links(batch), toCreate)
    requires CreatedOnce(stored, user, Links(batch), toCreate)
    requires created.Keys == BatchKeys(user, batch) - stored.Keys
    requires forall j :: 0 <= j < |toCreate| ==> KeyOf(toCreate[j]) in created && created[KeyOf(toCreate[j])] == toCreate[j]
    requires k in created
    ensures k !in toUpdate && k in StoreAfterBatch(stored, user, batch, merge, create)
    ensures (stored + created)[k] == StoreAfterBatch(stored, user, batch, merge, create)[k]
    ensures KeyOf(created[k]) == k
  {
    var l :| l in Links(batch) && k == ArticleKey(user, l);
    var j :| 0 <= j < |toCreate| && toCreate[j].link == l;
    assert KeyOf(toCreate[j]) == k;
    NewKeyAfterBatch(stored, user, batch, merge, create, k);
    assert (stored + created)[k] == created[k];
  }

  lemma NewKeyAfterBatch(stored: Articles, user: UserId, batch: seq<ArticleData>, merge: Merger, create: Creator, k: ArticleKey)
    requires k !in stored && k.user == user && k.link in Links(batch)
    ensures k in StoreAfterBatch(stored, user, batch, merge, create)
    ensures StoreAfterBatch(stored, user, batch, merge, create)[k] == Outcome(stored, user, batch, merge, create, k.link).article
  {
    assert k in BatchKeys(user, batch);
  }

  lemma MergedRowMatches(stored: Articles, user: UserId, batch: seq<ArticleData>, merge: Merger, create: Creator,
                         existing: Articles, toUpdate: Articles, k: ArticleKey)
    requires KeysConsistent(stored)
    requires ExistingMerged(stored, user, batch, merge, create, Links(batch), existing)
    requires UpdatesQueued(stored, user, batch, merge, create, Links(batch), existing, toUpdate)
    requires k in stored && k.user == user && k.link in Links(batch)
    ensures var after := if k in toUpdate then Persist(stored[k], toUpdate[k]) else stored[k];
      && k in StoreAfterBatch(stored, user, batch, merge, create)
      && after == StoreAfterBatch(stored, user, batch, merge, create)[k]
      && KeyOf(after) == k
  {
    assert k in existing;
  }

  /** The returned list covers the batch: new rows first, then every stored
      article whose link was in the batch, each link once, each the outcome
      of its link. */
  lemma BatchResultCovers(stored: Articles, user: UserId, batch: seq<ArticleData>, merge: Merger, create: Creator,
                          existing: Articles, toCreate: seq<Article>, toUpdate: Articles, values: seq<Article>)
    requires Classified(stored, user, batch, merge, create, Links(batch), existing, toCreate, toUpdate)
    requires forall a :: a in values <==> KeyOf(a) in existing && existing[KeyOf(a)] == a
    requires forall i, j :: 0 <= i < j < |values| ==> KeyOf(values[i]) != KeyOf(values[j])
    ensures var r := toCreate + values;
      && (forall i :: 0 <= i < |r| ==>
            r[i].user == user && r[i].link in Links(batch) && r[i] == Outcome(stored, user, batch, merge, create, r[i].link).article)
      && (forall l :: l in Links(batch) ==> exists i :: 0 <= i < |r| && r[i].link == l)
      && (forall i, j :: 0 <= i < j < |r| ==> r[i].link != r[j].link)
      && NewRowsFirst(r, stored, |toCreate|)
  {
    ResultRows(stored, user, batch, merge, create, existing, toCreate, values);
    ResultCovers(stored, user, batch, existing, toCreate, values);
    ResultDistinct(stored, user, batch, existing, toCreate, values);
  }

  lemma ValuesAt(existing: Articles, values: seq<Article>, i: int)
    requires forall a :: a in values <==> KeyOf(a) in existing && existing[KeyOf(a)] == a
    requires 0 <= i < |values|
    ensures KeyOf(values[i]) in existing && existing[KeyOf(values[i])] == values[i]
  {
    assert values[i] in values;
  }

  lemma ResultRows(stored: Articles, user: UserId, batch: seq<ArticleData>, merge: Merger, create: Creator,
                   existing: Articles, toCreate: seq<Article>, values: seq<Article>)
    requires ExistingMerged(stored, user, batch, merge, create, Links(batch), existing)
    requires CreatedRows(stored, user, batch, merge, create, Links(batch), toCreate)
    requires forall a :: a in values <==> KeyOf(a) in existing && existing[KeyOf(a)] == a
    ensures var r := toCreate + values;
      && (forall i :: 0 <= i < |r| ==>
            r[i].user == user && r[i].link in Links(batch) && r[i] == Outcome(stored, user, batch, merge, create, r[i].link).article)
      && (forall i :: 0 <= i < |toCreate| ==> KeyOf(r[i]) !in stored)
      && (forall i :: |toCreate| <= i < |r| ==> KeyOf(r[i]) in stored)
  {
    var r := toCreate + values;
    forall i | |toCreate| <= i < |r|
      ensures r[i] == values[i - |toCreate|] && KeyOf(r[i]) in existing && existing[KeyOf(r[i])] == r[i]
    {
      ValuesAt(existing, values, i - |toCreate|);
    }
  }

  lemma ResultCovers(stored: Articles, user: UserId, batch: seq<ArticleData>,
                     existing: Articles, toCreate: seq<Article>, values: seq<Article>)
    requires existing.Keys == (set k | k in stored && k.user == user && k.link in Links(batch))
    requires KeysConsistent(existing)
    requires CreatedOnce(stored, user, Links(batch), toCreate)
    requires forall a :: a in values <==> KeyOf(a) in existing && existing[KeyOf(a)] == a
    ensures var r := toCreate + values;
      forall l :: l in Links(batch) ==> exists i :: 0 <= i < |r| && r[i].link == l
  {
    var r := toCreate + values;
    forall l | l in Links(batch)
      ensures exists i :: 0 <= i < |r| && r[i].link == l
    {
      var k := ArticleKey(user, l);
      if k in stored {
        assert k in existing;
        assert existing[k] in values;
        var i :| 0 <= i < |values| && values[i] == existing[k];
        assert r[|toCreate| + i].link == l;
      } else {
        var j :| 0 <= j < |toCreate| && toCreate[j].link == l;
        assert r[j].link == l;
      }
    }
  }

  lemma ResultDistinct(stored: Articles, user: UserId, batch: seq<ArticleData>,
                       existing: Articles, toCreate: seq<Article>, values: seq<Article>)
    requires existing.Keys == (set k | k in stored && k.user == user && k.link in Links(batch))
    requires forall j :: 0 <= j < |toCreate| ==> toCreate[j].user == user && KeyOf(toCreate[j]) !in stored
    requires CreatedOnce(stored, user, Links(batch), toCreate)
    requires forall a :: a in values <==> KeyOf(a) in existing && existing[KeyOf(a)] == a
    requires forall i, j :: 0 <= i < j < |values| ==> KeyOf(values[i]) != KeyOf(values[j])
    ensures var r := toCreate + values;
      forall i, j :: 0 <= i < j < |r| ==> r[i].link != r[j].link
  {
    var r := toCreate + values;
    forall i, j | 0 <= i < j < |r|
      ensures r[i].link != r[j].link
    {
      if j < |toCreate| {
      } else if i >= |toCreate| {
        ValuesAt(existing, values, i - |toCreate|);
        ValuesAt(existing, values, j - |toCreate|);
        assert KeyOf(r[i]).user == user && KeyOf(r[j]).user == user;
      } else {
        ValuesAt(existing, values, j - |toCreate|);
        assert KeyOf(r[j]) in stored;
      }
    }
  }
}
