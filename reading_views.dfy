/** The two reading views that change articles: the bulk update of a list
    of articles (add tags, remove tags, then an action, on every article the
    list's query selects) and the edit form of one article (replace its
    tags, then set its title and reading time). Resolving tag names to tags
    (`Tag.objects.get_or_create_from_list`) is a parameter: the tag table is
    not part of this model. */
module ReadingViews {
  import opened Common
  import opened Time
  import opened ReadingModel
  import opened TagLedger
  import opened ArticleMerge
  import opened ArticleStore

  // ---------------------------------------------------------------------
  // The list of articles.

  /** The query behind a list of articles: whether it keeps an article,
      given the article's active tags. A queryset is evaluated anew each
      time `.all()` is used, so the selection is recomputed against the
      current associations. */
  type Selector = (Article, set<TagId>) -> bool

  function Selected(m: Articles, ledger: Ledger, selects: Selector): (r: set<ArticleKey>)
    ensures r <= m.Keys
    ensures forall k :: k in r <==> k in m && selects(m[k], ActiveTagIds(ledger, k))
  {
    set k | k in m && selects(m[k], ActiveTagIds(ledger, k))
  }

  predicate AllKnown(tags: seq<string>, known: set<string>) {
    forall i :: 0 <= i < |tags| ==> tags[i] in known
  }

  /** `UpdateArticlesForm.clean_remove_tags`: the first tag that is not one
      of the user's tags rejects the form. */
  method CleanRemoveTags(removeTags: seq<string>, known: set<string>) returns (r: Result<seq<string>, string>)
    ensures r.Success? <==> AllKnown(removeTags, known)
    ensures r.Success? ==> r.value == removeTags
    ensures r.Failure? ==>
      exists i :: 0 <= i < |removeTags| && removeTags[i] !in known && AllKnown(removeTags[..i], known) && r.error == removeTags[i] + " is not a known tag"
  {
    for i := 0 to |removeTags|
      invariant AllKnown(removeTags[..i], known)
    {
      if removeTags[i] !in known {
        return Failure(removeTags[i] + " is not a known tag");
      }
      assert removeTags[..i + 1] == removeTags[..i] + [removeTags[i]];
    }
    assert removeTags[..|removeTags|] == removeTags;
    r := Success(removeTags);
  }

  /** The submitted `UpdateArticlesForm`: the tags to add and to remove, and
      the action, None when it is missing or not one of the choices. */
  datatype UpdateArticlesData = UpdateArticlesData(
    addTags: seq<string>,
    removeTags: seq<string>,
    updateAction: Option<UpdateArticleAction>)

  predicate UpdateFormValid(data: UpdateArticlesData, known: set<string>) {
    data.updateAction.Some? && AllKnown(data.removeTags, known)
  }

  /** The associations after the add step: skipped when no tag is given. */
  function LedgerAfterAdd(m: Articles, ledger: Ledger, selects: Selector, addTags: seq<string>, resolve: seq<string> -> set<TagId>): Ledger {
    if |addTags| > 0 then Associate(ledger, Selected(m, ledger, selects), resolve(addTags), AddedManually, true)
    else ledger
  }

  /** The associations after the remove step, run on a fresh selection. */
  function LedgerAfterRemove(m: Articles, ledger: Ledger, selects: Selector, removeTags: seq<string>, resolve: seq<string> -> set<TagId>): Ledger {
    if |removeTags| > 0 then Dissociate(ledger, Selected(m, ledger, selects), resolve(removeTags))
    else ledger
  }

  /** `_update_list_of_articles`: an invalid form answers 400 and changes
      nothing; otherwise the tags are added, then removed, then the action
      runs, each on the selection as it stands at that moment. */
  method UpdateListOfArticles(store: Store, data: UpdateArticlesData, knownTags: set<string>, selects: Selector,
                              resolve: seq<string> -> set<TagId>, now: Instant)
    returns (status: HttpStatus)
    requires store.Valid()
    modifies store
    ensures store.Valid()
    ensures store.fetchErrors == old(store.fetchErrors)
    ensures !UpdateFormValid(data, knownTags) ==>
      status == BadRequest && store.articles == old(store.articles) && store.ledger == old(store.ledger)
    ensures UpdateFormValid(data, knownTags) ==>
      var added := LedgerAfterAdd(old(store.articles), old(store.ledger), selects, data.addTags, resolve);
      var removed := LedgerAfterRemove(old(store.articles), added, selects, data.removeTags, resolve);
      && status == Ok
      && store.ledger == removed
      && store.articles == ApplyAction(old(store.articles), Selected(old(store.articles), removed, selects), data.updateAction.value, now)
  {
    var cleaned := CleanRemoveTags(data.removeTags, knownTags);
    if cleaned.Failure? || data.updateAction.None? {
      return BadRequest;
    }
    if |data.addTags| > 0 {
      store.ledger := Associate(store.ledger, Selected(store.articles, store.ledger, selects), resolve(data.addTags), AddedManually, true);
    }
    if |data.removeTags| > 0 {
      store.ledger := Dissociate(store.ledger, Selected(store.articles, store.ledger, selects), resolve(data.removeTags));
    }
    var _ := store.UpdateArticlesFromAction(Selected(store.articles, store.ledger, selects), data.updateAction.value, now);
    status := Ok;
  }

  // ---------------------------------------------------------------------
  // Properties of the list update

  /** The query of the external-tag view (`for_external_tag`) does not
      look at the article's tags: it selects the same articles at each of
      the three steps. */
  ghost predicate TagBlind(selects: Selector) {
    forall a, t1, t2 :: selects(a, t1) == selects(a, t2)
  }

  /** The query of the tag view (`for_tag`): the articles whose active tags
      include `tag`, whoever owns them. */
  ghost predicate IsTagQuery(selects: Selector, tag: TagId) {
    forall a, active :: selects(a, active) == (tag in active)
  }

  lemma TagBlindSelectionIsStable(m: Articles, l1: Ledger, l2: Ledger, selects: Selector)
    requires TagBlind(selects)
    ensures Selected(m, l1, selects) == Selected(m, l2, selects)
  {
  }

  /** In both views that call the list update, adding tags does not change
      what the query selects: the remove step works on the articles the add
      step worked on. For the tag view this holds because an added tag is
      active afterwards and an unselected article is not touched. */
  lemma {:induction false} AddStepKeepsSelection(m: Articles, ledger: Ledger, selects: Selector, tag: TagId,
                                                 addTags: seq<string>, resolve: seq<string> -> set<TagId>)
    requires TagBlind(selects) || IsTagQuery(selects, tag)
    ensures Selected(m, LedgerAfterAdd(m, ledger, selects, addTags, resolve), selects) == Selected(m, ledger, selects)
  {
    var added := LedgerAfterAdd(m, ledger, selects, addTags, resolve);
    if TagBlind(selects) {
      TagBlindSelectionIsStable(m, ledger, added, selects);
    } else if |addTags| > 0 {
      var keys := Selected(m, ledger, selects);
      forall k | k in m
        ensures (tag in ActiveTagIds(added, k)) == (tag in ActiveTagIds(ledger, k))
      {
        if k in keys && tag in resolve(addTags) {
          AssociateOutcome(ledger, keys, resolve(addTags), AddedManually, true, k, tag);
        }
      }
      forall k | k in m
        ensures k in Selected(m, added, selects) <==> k in keys
      {
        assert selects(m[k], ActiveTagIds(added, k)) == (tag in ActiveTagIds(added, k));
        assert selects(m[k], ActiveTagIds(ledger, k)) == (tag in ActiveTagIds(ledger, k));
      }
    }
  }

  /** In either view, each selected article ends with every added tag that
      was not also removed as ADDED_MANUALLY, and every removed tag it had
      as DELETED, the row being kept. */
  lemma {:induction false} ListUpdateTags(m: Articles, ledger: Ledger, selects: Selector, tag: TagId, data: UpdateArticlesData,
                                          resolve: seq<string> -> set<TagId>, k: ArticleKey, t: TagId)
    requires TagBlind(selects) || IsTagQuery(selects, tag)
    requires k in Selected(m, ledger, selects)
    ensures var r := LedgerAfterRemove(m, LedgerAfterAdd(m, ledger, selects, data.addTags, resolve), selects, data.removeTags, resolve);
      && (|data.addTags| > 0 && t in resolve(data.addTags) && (|data.removeTags| == 0 || t !in resolve(data.removeTags)) ==>
            (k, t) in r && r[(k, t)] == AddedManually && t in ActiveTagIds(r, k))
      && (|data.removeTags| > 0 && t in resolve(data.removeTags) && (k, t) in ledger ==>
            (k, t) in r && r[(k, t)] == Deleted && t !in ActiveTagIds(r, k))
  {
    AddStepKeepsSelection(m, ledger, selects, tag, data.addTags, resolve);
    if |data.addTags| > 0 && t in resolve(data.addTags) {
      AssociateOutcome(ledger, Selected(m, ledger, selects), resolve(data.addTags), AddedManually, true, k, t);
    }
  }

  /** In either view, an article outside the selection keeps its
      associations and its row. */
  lemma {:induction false} ListUpdateLeavesOthers(m: Articles, ledger: Ledger, selects: Selector, tag: TagId, data: UpdateArticlesData,
                                                  resolve: seq<string> -> set<TagId>, now: Instant, k: ArticleKey)
    requires TagBlind(selects) || IsTagQuery(selects, tag)
    requires data.updateAction.Some?
    requires k in m && k !in Selected(m, ledger, selects)
    ensures var r := LedgerAfterRemove(m, LedgerAfterAdd(m, ledger, selects, data.addTags, resolve), selects, data.removeTags, resolve);
      && (forall t :: (k, t) in r <==> (k, t) in ledger)
      && (forall t :: (k, t) in r ==> r[(k, t)] == ledger[(k, t)])
      && ApplyAction(m, Selected(m, r, selects), data.updateAction.value, now)[k] == m[k]
  {
    var added := LedgerAfterAdd(m, ledger, selects, data.addTags, resolve);
    var r := LedgerAfterRemove(m, added, selects, data.removeTags, resolve);
    AddStepKeepsSelection(m, ledger, selects, tag, data.addTags, resolve);
    assert ActiveTagIds(r, k) == ActiveTagIds(ledger, k);
    assert k !in Selected(m, r, selects);
  }

  /** The action reaches every article the query selects, not only those
      on the displayed page: after MARK_AS_READ each of them is read. */
  lemma MarkAsReadReachesWholeSelection(m: Articles, ledger: Ledger, selects: Selector, now: Instant, k: ArticleKey)
    requires k in Selected(m, ledger, selects)
    ensures IsRead(ApplyAction(m, Selected(m, ledger, selects), MarkAsRead, now)[k])
  {
    MarkAsReadOutcome(m, Selected(m, ledger, selects), now);
  }

  /** Because the query is evaluated again after the tags change, removing
      the tag a list selects on withdraws its articles from the action: on
      a list of the articles tagged `t`, removing `t` leaves no article for
      the action to touch. */
  lemma RemovingTheSelectingTagEmptiesTheAction(m: Articles, ledger: Ledger, selects: Selector, t: TagId, data: UpdateArticlesData,
                                                resolve: seq<string> -> set<TagId>)
    requires IsTagQuery(selects, t)
    requires |data.removeTags| > 0 && t in resolve(data.removeTags)
    ensures var r := LedgerAfterRemove(m, LedgerAfterAdd(m, ledger, selects, data.addTags, resolve), selects, data.removeTags, resolve);
      Selected(m, r, selects) == {}
  {
    var added := LedgerAfterAdd(m, ledger, selects, data.addTags, resolve);
    var r := LedgerAfterRemove(m, added, selects, data.removeTags, resolve);
    forall k | k in m
      ensures t !in ActiveTagIds(r, k)
    {
      if (k, t) in added && k in Selected(m, added, selects) {
        DissociateOutcome(added, Selected(m, added, selects), resolve(data.removeTags), k, t);
      }
    }
  }

  // ---------------------------------------------------------------------
  // The details of one article.

  /** The submitted `EditArticleForm`. */
  datatype EditArticleData = EditArticleData(tags: seq<string>, title: string, readingTime: int)

  /** The form's bounds: a title is required and has at most
      `ARTICLE_TITLE_MAX_LENGTH` characters; the reading time is an integer
      of at least 0. */
  predicate EditFormValid(data: EditArticleData) {
    0 < |data.title| <= ArticleTitleMaxLength && data.readingTime >= 0
  }

  /** `_handle_update`: a valid form replaces the article's tags, then sets
      its title and reading time and saves it at `now`; an invalid one answers 400
      and changes nothing. The article read back is returned. The form puts no
      upper bound on the reading time, so a valid form can still hold a row
      that does not fit its columns: the save raises and the transaction
      rolls the tag changes back. */
  method HandleUpdate(store: Store, k: ArticleKey, data: EditArticleData, resolve: seq<string> -> set<TagId>, ops: TextOps, now: Instant)
    returns (r: Result<(HttpStatus, Article), DbError>)
    requires store.Valid()
    requires k in store.articles
    modifies store
    ensures store.Valid()
    ensures store.fetchErrors == old(store.fetchErrors)
    ensures !EditFormValid(data) ==>
      r == Success((BadRequest, old(store.articles)[k])) && store.articles == old(store.articles) && store.ledger == old(store.ledger)
    ensures EditFormValid(data) ==>
      var edited := Save(UpdateFromDetails(old(store.articles)[k], data.title, data.readingTime as nat), ops, now);
      && (!FitsColumns(edited) ==>
            r == Failure(DataError) && store.articles == old(store.articles) && store.ledger == old(store.ledger))
      && (FitsColumns(edited) ==>
            && r == Success((Ok, edited))
            && store.ledger == DissociateNotInList(Associate(old(store.ledger), {k}, resolve(data.tags), AddedManually, true), k, resolve(data.tags))
            && store.articles == old(store.articles)[k := edited])
    ensures r.Success? ==> k in store.articles && r.value.1 == store.articles[k]
  {
    if !EditFormValid(data) {
      return Success((BadRequest, store.articles[k]));
    }
    var updated := Save(UpdateFromDetails(store.articles[k], data.title, data.readingTime as nat), ops, now);
    if !FitsColumns(updated) {
      return Failure(DataError);
    }
    var tags := resolve(data.tags);
    store.ledger := Associate(store.ledger, {k}, tags, AddedManually, true);
    store.ledger := DissociateNotInList(store.ledger, k, tags);
    assert KeyOf(updated) == KeyOf(store.articles[k]);
    store.articles := store.articles[k := updated];
    r := Success((Ok, updated));
  }

  /** A reading time the form accepts but the `integer` column does not
      hold makes the save fail; within the column's range, an article with
      a slug is saved. */
  lemma EditFitsIffReadingTimeFits(m: Articles, k: ArticleKey, data: EditArticleData, ops: TextOps, now: Instant)
    requires k in m && AllFit(m) && m[k].slug != ""
    requires EditFormValid(data)
    ensures FitsColumns(Save(UpdateFromDetails(m[k], data.title, data.readingTime as nat), ops, now)) <==>
      data.readingTime <= MaxPositiveInteger
  {
    var a := Save(UpdateFromDetails(m[k], data.title, data.readingTime as nat), ops, now);
    assert FitsColumns(m[k]);
    assert a.slug == m[k].slug && a.link == m[k].link && a.previewPictureUrl == m[k].previewPictureUrl;
  }

  /** After a valid edit the article's active tags are exactly the submitted
      ones, each ADDED_MANUALLY, its other tags are DELETED, and the article
      has the submitted title and reading time, `obj_updated_at` stamped
      with the instant of the save, and every other field as before (the
      slug is filled in only when it was empty). */
  lemma EditOutcome(m: Articles, ledger: Ledger, k: ArticleKey, data: EditArticleData, resolve: seq<string> -> set<TagId>, ops: TextOps, now: Instant)
    requires k in m && EditFormValid(data)
    ensures var l := DissociateNotInList(Associate(ledger, {k}, resolve(data.tags), AddedManually, true), k, resolve(data.tags));
      && ActiveTagIds(l, k) == resolve(data.tags)
      && (forall t :: (k, t) in ledger && t !in resolve(data.tags) ==> (k, t) in l && l[(k, t)] == Deleted)
      && (forall p :: p in ledger && p.0 != k ==> p in l && l[p] == ledger[p])
    ensures var a := Save(UpdateFromDetails(m[k], data.title, data.readingTime as nat), ops, now);
      && a.title == data.title && a.readingTime == data.readingTime && a.objUpdatedAt == now
      && a.(title := m[k].title, readingTime := m[k].readingTime, slug := m[k].slug, objUpdatedAt := m[k].objUpdatedAt) == m[k]
      && (m[k].slug != "" ==> a.slug == m[k].slug)
  {
    ReplaceOutcome(ledger, k, resolve(data.tags));
  }
}
