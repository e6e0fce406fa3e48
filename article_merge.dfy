/** How an incoming `ArticleData` is merged into a stored article
    (`Article.update_article_from_data`), the override applied when the
    data comes from a manual addition, the new article built for an unknown
    link, the subset of fields `bulk_update` writes back, and the edit made
    from the details page. Articles are values here: each operation returns
    the article as the Python object would be after the call. */
module ArticleMerge {
  import opened Common
  import opened Time
  import opened ReadingModel

  datatype MergeResult = MergeResult(updated: bool, article: Article)

  /** `is_more_recent`: either date is unknown, or the incoming one is later. */
  predicate IsMoreRecent(a: Article, d: ArticleData) {
    a.updatedAt.None? || d.updatedAt.None? || d.updatedAt.value > a.updatedAt.value
  }

  /** `has_content_unlike_saved`. */
  predicate HasContentUnlikeSaved(a: Article, d: ArticleData) {
    d.content != "" && a.content == ""
  }

  /** The reading time after a full update: the word count of the new
      content divided by the user's words per minute, or the stored value
      when that quotient is zero. */
  function MergedReadingTime(a: Article, content: string, wordsPerMinute: nat, ops: TextOps): (r: nat)
    requires wordsPerMinute > 0
    ensures ops.nbWords(content) >= wordsPerMinute ==>
      0 < r && r * wordsPerMinute <= ops.nbWords(content) < (r + 1) * wordsPerMinute
    ensures ops.nbWords(content) < wordsPerMinute ==> r == a.readingTime
  {
    var computed := ops.nbWords(content) / wordsPerMinute;
    if computed != 0 then computed else a.readingTime
  }

  /** The fields a full update assigns; every other column keeps its value. */
  function FullUpdate(a: Article, d: ArticleData, wordsPerMinute: nat, ops: TextOps): (r: Article)
    requires wordsPerMinute > 0
    ensures KeyOf(r) == KeyOf(a)
    ensures r.(title := a.title, slug := a.slug, summary := a.summary, content := a.content,
               readingTime := a.readingTime, previewPictureUrl := a.previewPictureUrl,
               previewPictureAlt := a.previewPictureAlt, authors := a.authors,
               contributors := a.contributors, externalTags := a.externalTags,
               updatedAt := a.updatedAt, publishedAt := a.publishedAt) == a
  {
    var title := Truncate(d.title, ArticleTitleMaxLength);
    var content := OrElse(d.content, a.content);
    a.(
      title := OrElse(title, a.title),
      slug := OrElse(ops.slugify(title), a.slug),
      summary := OrElse(d.summary, a.summary),
      content := content,
      readingTime := MergedReadingTime(a, content, wordsPerMinute, ops),
      previewPictureUrl := OrElse(d.previewPictureUrl, a.previewPictureAlt),
      previewPictureAlt := OrElse(d.previewPictureAlt, a.previewPictureAlt),
      authors := Dedup(a.authors + d.authors),
      contributors := Dedup(a.contributors + d.contributors),
      externalTags := Dedup(a.externalTags + d.tags),
      updatedAt := MaxOrNone([d.updatedAt, a.updatedAt]),
      publishedAt := MinOrNone([d.publishedAt, a.publishedAt]))
  }

  /** `update_article_from_data`. Only a full update divides by the user's
      reading speed, so only it needs that speed to be positive. The source
      also assigns `utcnow()` to an attribute `article_to_update` that is
      not a column, so nothing of it reaches the database; the model leaves
      it out. */
  function UpdateArticleFromData(a: Article, d: ArticleData, force: bool, wordsPerMinute: nat, ops: TextOps): (r: MergeResult)
    requires IsMoreRecent(a, d) || force ==> wordsPerMinute > 0
    ensures r.updated <==> IsMoreRecent(a, d) || HasContentUnlikeSaved(a, d) || force
    ensures !r.updated ==> r.article == a
    ensures KeyOf(r.article) == KeyOf(a)
  {
    if !IsMoreRecent(a, d) && !HasContentUnlikeSaved(a, d) && !force then MergeResult(false, a)
    else if IsMoreRecent(a, d) || force then MergeResult(true, FullUpdate(a, d, wordsPerMinute, ops))
    else MergeResult(true, a.(content := d.content))
  }

  // ---------------------------------------------------------------------
  // What a full update promises.

  /** Empty incoming text keeps the stored text and non-empty incoming text
      replaces it, the title cut to the column length; the slug is derived
      from that cut title unless it slugifies to nothing; the alt text falls
      back to the stored one; the reading time is recomputed from the
      resulting content; and text that was present is never emptied. */
  lemma FullUpdateKeepsText(a: Article, d: ArticleData, force: bool, wordsPerMinute: nat, ops: TextOps)
    requires wordsPerMinute > 0
    requires IsMoreRecent(a, d) || force
    ensures var r := UpdateArticleFromData(a, d, force, wordsPerMinute, ops).article;
      && (d.title == "" ==> r.title == a.title)
      && (d.title != "" ==> r.title == d.title[..|r.title|] && 0 < |r.title| <= ArticleTitleMaxLength)
      && (d.summary == "" ==> r.summary == a.summary)
      && (d.content == "" ==> r.content == a.content)
      && (a.title != "" ==> r.title != "")
      && (a.summary != "" ==> r.summary != "")
      && (a.content != "" ==> r.content != "")
      && (d.title != "" ==> r.title == Truncate(d.title, ArticleTitleMaxLength))
      && (d.summary != "" ==> r.summary == d.summary)
      && (d.content != "" ==> r.content == d.content)
      && r.slug == OrElse(ops.slugify(Truncate(d.title, ArticleTitleMaxLength)), a.slug)
      && (d.title != "" ==> r.slug == OrElse(ops.slugify(r.title), a.slug))
      && r.previewPictureAlt == OrElse(d.previewPictureAlt, a.previewPictureAlt)
      && r.readingTime == MergedReadingTime(a, r.content, wordsPerMinute, ops)
  {
  }

  /** Lists become the stored list, without its duplicates, followed by the
      new values not already in it, in first-seen order, without
      duplicates; a stored list that had no duplicates is kept as it was at
      the head. */
  lemma FullUpdateUnionsLists(a: Article, d: ArticleData, force: bool, wordsPerMinute: nat, ops: TextOps)
    requires wordsPerMinute > 0
    requires IsMoreRecent(a, d) || force
    ensures var r := UpdateArticleFromData(a, d, force, wordsPerMinute, ops).article;
      && NoDuplicates(r.authors) && NoDuplicates(r.contributors) && NoDuplicates(r.externalTags)
      && |Dedup(a.authors)| <= |r.authors| && r.authors[..|Dedup(a.authors)|] == Dedup(a.authors)
      && |Dedup(a.contributors)| <= |r.contributors| && r.contributors[..|Dedup(a.contributors)|] == Dedup(a.contributors)
      && |Dedup(a.externalTags)| <= |r.externalTags| && r.externalTags[..|Dedup(a.externalTags)|] == Dedup(a.externalTags)
      && (NoDuplicates(a.authors) ==> |a.authors| <= |r.authors| && r.authors[..|a.authors|] == a.authors)
      && (NoDuplicates(a.contributors) ==> |a.contributors| <= |r.contributors| && r.contributors[..|a.contributors|] == a.contributors)
      && (NoDuplicates(a.externalTags) ==> |a.externalTags| <= |r.externalTags| && r.externalTags[..|a.externalTags|] == a.externalTags)
      && (forall x :: x in r.authors <==> x in a.authors || x in d.authors)
      && (forall x :: x in r.contributors <==> x in a.contributors || x in d.contributors)
      && (forall x :: x in r.externalTags <==> x in a.externalTags || x in d.tags)
  {
    DedupKeepsPrefix(a.authors, d.authors);
    DedupKeepsPrefix(a.contributors, d.contributors);
    DedupKeepsPrefix(a.externalTags, d.tags);
    if NoDuplicates(a.authors) {
      DedupOfDistinct(a.authors);
    }
    if NoDuplicates(a.contributors) {
      DedupOfDistinct(a.contributors);
    }
    if NoDuplicates(a.externalTags) {
      DedupOfDistinct(a.externalTags);
    }
  }

  /** The update date becomes the later of the two and the publication date
      the earlier of the two, ignoring unknown dates. */
  lemma {:induction false} FullUpdateDates(a: Article, d: ArticleData, force: bool, wordsPerMinute: nat, ops: TextOps)
    requires wordsPerMinute > 0
    requires IsMoreRecent(a, d) || force
    ensures var r := UpdateArticleFromData(a, d, force, wordsPerMinute, ops).article;
      && (r.updatedAt.None? <==> a.updatedAt.None? && d.updatedAt.None?)
      && (a.updatedAt.Some? ==> r.updatedAt.Some? && r.updatedAt.value >= a.updatedAt.value)
      && (d.updatedAt.Some? ==> r.updatedAt.Some? && r.updatedAt.value >= d.updatedAt.value)
      && (r.updatedAt == a.updatedAt || r.updatedAt == d.updatedAt)
      && (r.publishedAt.None? <==> a.publishedAt.None? && d.publishedAt.None?)
      && (a.publishedAt.Some? ==> r.publishedAt.Some? && r.publishedAt.value <= a.publishedAt.value)
      && (d.publishedAt.Some? ==> r.publishedAt.Some? && r.publishedAt.value <= d.publishedAt.value)
      && (r.publishedAt == a.publishedAt || r.publishedAt == d.publishedAt)
  {
    var r := UpdateArticleFromData(a, d, force, wordsPerMinute, ops).article;
    var us := [d.updatedAt, a.updatedAt];
    var ps := [d.publishedAt, a.publishedAt];
    assert r.updatedAt == MaxOrNone(us) && r.publishedAt == MinOrNone(ps);
    assert us[0] == d.updatedAt && us[1] == a.updatedAt;
    assert ps[0] == d.publishedAt && ps[1] == a.publishedAt;
  }

  /** As written, an empty incoming picture URL is replaced by the stored
      picture's alternative text, not by the stored URL. */
  lemma FullUpdatePictureFallback(a: Article, d: ArticleData, force: bool, wordsPerMinute: nat, ops: TextOps)
    requires wordsPerMinute > 0
    requires IsMoreRecent(a, d) || force
    ensures var r := UpdateArticleFromData(a, d, force, wordsPerMinute, ops).article;
      && (d.previewPictureUrl == "" ==> r.previewPictureUrl == a.previewPictureAlt)
      && (d.previewPictureUrl != "" ==> r.previewPictureUrl == d.previewPictureUrl)
  {
  }

  /** A full update leaves the reading state, the flags, the source and the
      identity of the article alone. */
  lemma FullUpdateKeepsState(a: Article, d: ArticleData, force: bool, wordsPerMinute: nat, ops: TextOps)
    requires wordsPerMinute > 0
    ensures var r := UpdateArticleFromData(a, d, force, wordsPerMinute, ops).article;
      && r.readAt == a.readAt && r.openedAt == a.openedAt
      && r.isFavorite == a.isFavorite && r.isForLater == a.isForLater
      && r.mainSourceType == a.mainSourceType && r.mainSourceTitle == a.mainSourceTitle
      && r.externalArticleId == a.externalArticleId && r.language == a.language
      && r.objCreatedAt == a.objCreatedAt && r.objUpdatedAt == a.objUpdatedAt
  {
  }

  /** Stale data with new content only fills the empty content. */
  lemma ContentOnlyUpdate(a: Article, d: ArticleData, wordsPerMinute: nat, ops: TextOps)
    requires !IsMoreRecent(a, d) && HasContentUnlikeSaved(a, d)
    ensures UpdateArticleFromData(a, d, false, wordsPerMinute, ops) == MergeResult(true, a.(content := d.content))
  {
  }

  /** Merging the same dated data a second time changes nothing. */
  lemma MergeIdempotent(a: Article, d: ArticleData, wordsPerMinute: nat, ops: TextOps)
    requires wordsPerMinute > 0
    requires d.updatedAt.Some?
    ensures var once := UpdateArticleFromData(a, d, false, wordsPerMinute, ops).article;
      !UpdateArticleFromData(once, d, false, wordsPerMinute, ops).updated
  {
    var once := UpdateArticleFromData(a, d, false, wordsPerMinute, ops).article;
    if IsMoreRecent(a, d) {
      FullUpdateDates(a, d, false, wordsPerMinute, ops);
    }
    assert !IsMoreRecent(once, d);
  }

  // ---------------------------------------------------------------------
  // The batch step around the merge.

  /** The merge of a stored article inside
      `update_or_create_from_articles_list`: a manual addition always queues
      the article, makes it MANUAL, marks it unread and stamps
      `obj_updated_at`. */
  function ReconcileExisting(a: Article, d: ArticleData, source: ArticleSourceType, force: bool, wordsPerMinute: nat, ops: TextOps, now: Instant): (r: MergeResult)
    requires wordsPerMinute > 0
    ensures KeyOf(r.article) == KeyOf(a)
  {
    var merged := UpdateArticleFromData(a, d, force, wordsPerMinute, ops);
    if source == Manual then
      MergeResult(true, merged.article.(mainSourceType := Manual, readAt := None, objUpdatedAt := now))
    else merged
  }

  lemma ManualOverride(a: Article, d: ArticleData, force: bool, wordsPerMinute: nat, ops: TextOps, now: Instant)
    requires wordsPerMinute > 0
    ensures var r := ReconcileExisting(a, d, Manual, force, wordsPerMinute, ops, now);
      && r.updated && r.article.mainSourceType == Manual && !IsRead(r.article) && r.article.objUpdatedAt == now
  {
  }

  lemma FeedSourceIsPlainMerge(a: Article, d: ArticleData, force: bool, wordsPerMinute: nat, ops: TextOps, now: Instant)
    requires wordsPerMinute > 0
    ensures ReconcileExisting(a, d, Feed, force, wordsPerMinute, ops, now) == UpdateArticleFromData(a, d, force, wordsPerMinute, ops)
  {
  }

  lemma DivisionBounds(x: nat, w: nat)
    requires w > 0
    ensures (x / w) * w <= x < (x / w + 1) * w
  {
  }

  /** The article created for an unknown link. Its reading time is the
      whole number of minutes the content takes at the user's pace. */
  function NewArticle(user: UserId, d: ArticleData, source: ArticleSourceType, wordsPerMinute: nat, ops: TextOps, now: Instant): (r: Article)
    requires wordsPerMinute > 0
    ensures KeyOf(r) == ArticleKey(user, d.link)
    ensures r.readingTime * wordsPerMinute <= ops.nbWords(d.content) < (r.readingTime + 1) * wordsPerMinute
    ensures r.mainSourceType == source
    ensures IsRead(r) <==> d.readAt.Some?
  {
    var minutes := ops.nbWords(d.content) / wordsPerMinute;
    DivisionBounds(ops.nbWords(d.content), wordsPerMinute);
    Article(
      user := user,
      link := d.link,
      title := d.title,
      slug := ops.slugify(d.title),
      summary := d.summary,
      content := d.content,
      readingTime := minutes,
      authors := d.authors,
      contributors := d.contributors,
      externalTags := d.tags,
      previewPictureUrl := d.previewPictureUrl,
      previewPictureAlt := d.previewPictureAlt,
      externalArticleId := d.externalArticleId,
      language := d.language,
      readAt := d.readAt,
      openedAt := None,
      isFavorite := d.isFavorite,
      isForLater := false,
      mainSourceType := source,
      mainSourceTitle := d.sourceTitle,
      publishedAt := d.publishedAt,
      updatedAt := d.updatedAt,
      objCreatedAt := now,
      objUpdatedAt := now)
  }

  /** The columns missing from the `bulk_update` field list. */
  predicate SameUnlistedColumns(a: Article, b: Article) {
    && a.user == b.user && a.link == b.link
    && a.externalArticleId == b.externalArticleId && a.language == b.language
    && a.openedAt == b.openedAt && a.isFavorite == b.isFavorite && a.isForLater == b.isForLater
    && a.mainSourceTitle == b.mainSourceTitle && a.publishedAt == b.publishedAt
    && a.objCreatedAt == b.objCreatedAt
  }

  /** The row `bulk_update` writes: the listed fields taken from the merged
      object, every other column as stored. A merged object that changed
      only listed columns is stored as it is. */
  function Persist(stored: Article, merged: Article): (r: Article)
    ensures SameUnlistedColumns(r, stored)
    ensures SameUnlistedColumns(merged, stored) ==> r == merged
  {
    stored.(
      title := merged.title,
      slug := merged.slug,
      summary := merged.summary,
      content := merged.content,
      readingTime := merged.readingTime,
      authors := merged.authors,
      previewPictureUrl := merged.previewPictureUrl,
      previewPictureAlt := merged.previewPictureAlt,
      contributors := merged.contributors,
      externalTags := merged.externalTags,
      updatedAt := merged.updatedAt,
      readAt := merged.readAt,
      mainSourceType := merged.mainSourceType,
      objUpdatedAt := merged.objUpdatedAt)
  }

  /** `published_at` is not in the `bulk_update` field list, so the earlier
      publication date the merge computes is returned to the caller but not
      stored; every other change of the merge is stored. */
  lemma PersistDropsOnlyPublishedAt(a: Article, d: ArticleData, source: ArticleSourceType, force: bool, wordsPerMinute: nat, ops: TextOps, now: Instant)
    requires wordsPerMinute > 0
    ensures var m := ReconcileExisting(a, d, source, force, wordsPerMinute, ops, now).article;
      Persist(a, m) == m.(publishedAt := a.publishedAt)
  {
  }

  // ---------------------------------------------------------------------
  // Editing from the details page.

  /** `update_from_details`: the title and reading time are replaced and
      nothing else changes. */
  function UpdateFromDetails(a: Article, title: string, readingTime: nat): (r: Article)
    ensures r.title == title && r.readingTime == readingTime
    ensures r.(title := a.title, readingTime := a.readingTime) == a
  {
    a.(title := title, readingTime := readingTime)
  }

  /** `Article.save`: an empty slug is derived from the title, and the
      `auto_now` column `obj_updated_at` takes the instant of the save;
      nothing else changes. */
  function Save(a: Article, ops: TextOps, now: Instant): (r: Article)
    ensures r.objUpdatedAt == now
    ensures a.slug != "" ==> r.slug == a.slug
    ensures a.slug == "" ==> r.slug == ops.slugify(a.title)
    ensures r.(slug := a.slug, objUpdatedAt := a.objUpdatedAt) == a
  {
    a.(slug := if a.slug == "" then ops.slugify(a.title) else a.slug, objUpdatedAt := now)
  }
}
