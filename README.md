# legadilo — a Dafny model of reading lists, article reconciliation and feed bookkeeping

legadilo is a Django application for reading RSS/Atom feeds and saved
articles. This project models the part of it that decides **which articles
a reading list shows**, **how incoming article data is reconciled with the
stored articles**, and the smaller rule sets around them: bulk actions and tag
edits from the article views, the feeds app's upsert, reading lists, feed
enabling and disabling, the validation in the subscribe view, and notification
read marks. The ORM is abstracted away. Tables become `map`s and `seq`s held in
classes whose methods change them. Querysets become functions over those maps.

Modules, one per concern, following the repository's layout:

| module | file | models |
|---|---|---|
| `Common` | common.dfy | Option/Result, `dict.fromkeys` dedup, `max_or_none` / `min_or_none`, HTTP statuses |
| `Time` | time.dfy | civil date-times, "now minus N hours/days/weeks/months" (`relativedelta`) |
| `Sorting` | sorting.dfy | a stable insertion sort used to state `ORDER BY` results |
| `ReadingModel` | reading_model.dfy | the reading app's articles, article data, reading lists and their enums |
| `ReadingFilters` | reading_filters.dfy | `_build_filters_from_reading_list`, `_get_tags_filters`, the tag operator, `default_order_by` |
| `TagLedger` | tag_ledger.dfy | the (article, tag) → tagging-reason association table |
| `ArticleMerge` | article_merge.dfy | `Article.update_article_from_data`, `update_from_details`, `save` |
| `ArticleBatch` | article_batch.dfy | the loop of `update_or_create_from_articles_list` |
| `ArticleStore` | article_store.dfy | the article table: batch reconciliation, `create_invalid_article`, `update_articles_from_action`, unread counts |
| `ReadingViews` | reading_views.dfy | `_update_list_of_articles`, `clean_remove_tags`, `_handle_update` of the details view |
| `FeedsArticles` | feeds_articles.dfy | the feeds app's article filter, upsert and listing |
| `FeedsReadingLists` | feeds_reading_lists.dfy | the feeds app's reading lists: defaults, lookups, constraints, protected delete |
| `FeedUpdates` | feed_updates.dfy | the feed update log, `must_disable_feed`, `get_latest_success_for_feed` |
| `Feeds` | feeds.dfy | `Feed`, its check constraint, `disable`, `update_feed`, `log_error`, `log_not_modified`, `only_feeds_to_update` |
| `SubscribeView` | subscribe_view.dfy | `_load_proposed_feed_choices`, the form's `feed_choices`, `feed_url`, outcome → status |
| `Notifications` | notifications.dfy | `mark_as_read`, `mark_as_unread`, `has_unread`, `is_read` |

Modelling choices worth knowing when reading the contracts:

- **Where state changes, the model is a class.** The reading app's article table is
  `ArticleStore.Store`; the feeds app's tables are `FeedsArticleTable`,
  `ReadingListTable`, `FeedUpdateLog` and `FeedArticleLinks`; a feed is the class
  `Feeds.Feed`; notifications are `NotificationTable`. Each method states its
  whole new state.
- **A filter is a list of clauses.** It is the compiled `Q` conjunction, and a lemma
  proves it agrees with a declarative `Matches` predicate.
- **Time is a parameter.** `now` is passed in; instants are whole seconds on the
  proleptic Gregorian calendar. A month back is a calendar month with the day clamped,
  as `relativedelta` does.
- **Outside functions are parameters.** `slugify`, `full_sanitize`, `get_nb_words_from_html`,
  `json.loads`/`json.dumps` and `Tag.objects.get_or_create_from_list` are passed in
  (`TextOps`, `JsonCodec`, `resolve`).
- **Column widths are modelled for the article table.** A row wider than its columns
  (`FitsColumns`) makes the write raise a DataError and the transaction change nothing,
  as PostgreSQL does: a new article's untruncated title, an overlong sanitized link in
  `create_invalid_article`, or a reading time beyond `integer` in the edit form.
- **The code is followed where it is surprising.** The list view re-evaluates its
  queryset at each step: `RemovingTheSelectingTagEmptiesTheAction` shows that an action
  after removing the tag that selects the articles reaches none of them. A full merge
  falls back to the stored `preview_picture_alt` for an empty picture URL
  (`FullUpdatePictureFallback`). `bulk_update` does not write `published_at`
  (`PersistDropsOnlyPublishedAt`). In the feeds app's upsert, `updated_at` gets the
  insertion instant, because the column is `auto_now`.

## Model

| member | source | states |
|---|---|---|
| Time.NowMinus | legadilo/reading/models/article.py:73-79 | the age threshold lies a whole number of hours before now, and a whole number of days for the day, week and month units, so those keep the time of day |
| Time.NowMinusIsEarlier | legadilo/reading/models/article.py:73-79 | the age threshold "now minus value × unit" never lies after now, lies strictly before it for a positive value, and equals now for 0 |
| Time.PinnedThresholds | legadilo/feeds/tests/test_models/test_article.py:44-75 | at 2024-03-19 21:08 one hour, day, week and month back are 20:08, 03-18 21:08, 03-12 21:08 and 02-19 21:08 |
| Time.MonthsAreCalendarMonths | legadilo/feeds/models/article.py:33-39 | a month back is a calendar month with the day clamped (03-31 → 02-29 in 2024), not thirty days |
| Time.MonthsBeforeIsEarlier | legadilo/reading/models/article.py:76-78 | going back n > 0 calendar months lands strictly earlier; n = 0 stays put |
| Time.MonthsBefore | legadilo/reading/models/article.py:76-78 | a month shift yields a valid calendar date with the same time of day; whether Python can hold that date is `AgeThreshold` |
| Time.AgeThreshold | legadilo/reading/models/article.py:73-79 | the threshold exists iff it lies on or after 0001-01-01T00:00, and then it is the calendar shift; before that Python raises |
| Time.YearSign | legadilo/reading/models/article.py:76-78 | a date-time is on or after 0001-01-01 iff its year is at least 1 |
| Time.ThresholdOutOfRange | legadilo/reading/models/article.py:76-78 | 30000 months before 2024-03-19 cannot be computed; one hour before can |
| Time.DaysInMonth | legadilo/reading/models/article.py:76-78 | months have 28 to 31 days; February has 29 exactly in leap years |
| ReadingFilters.SqlOperator | legadilo/reading/models/article.py:126-133 | ALL maps to `contains`, ANY to `overlap` |
| ReadingFilters.IdsOfType | legadilo/reading/models/article.py:103-111 | the ids collected for a filter type are exactly the tags linked with that type |
| ReadingFilters.CollectTagFilters | legadilo/reading/models/article.py:99-111 | the loop splits the list's tag links into the include ids and the exclude ids |
| ReadingFilters.LookupIsTagTest | legadilo/reading/models/article.py:113-122 | `contains` means every listed tag is active; `overlap` means some listed tag is active |
| ReadingFilters.TagFiltersAgree | legadilo/reading/models/article.py:99-123 | the tag clauses hold iff the include test passes (or there are no include tags) and the exclude test fails (or there are no exclude tags) |
| ReadingFilters.StatusClausesAgree | legadilo/reading/models/article.py:58-71 | ONLY_READ/ONLY_UNREAD, ONLY_FAVORITE/ONLY_NON_FAVORITE and ONLY_FOR_LATER/ONLY_NOT_FOR_LATER keep exactly the articles with that flag value; ALL keeps all |
| ReadingFilters.RangeClausesAgree | legadilo/reading/models/article.py:73-90 | the age clause keeps articles published strictly after the threshold (UNSET keeps all); MORE_THAN/LESS_THAN bound reading time inclusively |
| ReadingFilters.HoldsAllConcat | legadilo/reading/models/article.py:55-96 | a conjunction of concatenated clause lists holds iff each part holds |
| ReadingFilters.BuildFilters | legadilo/reading/models/article.py:55-96 | the compiled filter is empty exactly when the list sets no read, favourite, for-later, age or reading-time criterion and links no tag |
| ReadingFilters.FiltersAgree | legadilo/reading/models/article.py:55-96 | the compiled filter holds of an article iff the article matches the reading list's status, age, reading-time and tag criteria |
| ReadingFilters.IncludedAgree | legadilo/reading/models/article.py:106-107 | the collected include ids are the list's INCLUDE tags |
| ReadingFilters.ExcludedAgree | legadilo/reading/models/article.py:108-109 | the collected exclude ids are the list's EXCLUDE tags |
| ReadingFilters.UnconstrainedListKeepsEverything | legadilo/reading/models/article.py:56-96 | a list with ALL statuses, UNSET unit and operator and no tags adds no clause and keeps every article |
| ReadingFilters.NoActiveTags | legadilo/reading/models/article.py:151-158 | an article without active tags passes the tag test exactly when the list includes no tag |
| ReadingFilters.ReadingTimeBoundsInclusive | legadilo/reading/models/article.py:87-90 | an article whose reading time equals the threshold passes both MORE_THAN and LESS_THAN |
| ReadingFilters.OneHourWindow | legadilo/feeds/tests/test_models/test_article.py:44-50 | with a one-hour window at 21:08, an article published at 19:08 or without a date is out and one published at 20:38 is in |
| ReadingFilters.TagOperatorExamples | legadilo/feeds/tests/test_models/test_article.py:112-213 | include-ALL needs both tags; exclude-ANY rejects an article with the excluded tag |
| ReadingFilters.ArticleOrderIsTotalPreorder | legadilo/reading/models/article.py:283-298 | the `default_order_by` order on coalesce(updated_at, published_at) is total, in either direction |
| ReadingFilters.NullsLast | legadilo/reading/models/article.py:290-292 | in a sorted listing an article with neither date is followed only by such articles |
| ReadingFilters.DescendingPutsNewestFirst | legadilo/reading/models/article.py:292-297 | in DESC order a dated article comes before every article with an earlier sort date |
| TagLedger.ActiveTagIds | legadilo/reading/models/article.py:151-158 | an article's active tags are its associations whose reason is not DELETED |
| TagLedger.Associate | legadilo/reading/views/list_of_articles_views.py:214-219 | associating adds every (article, tag) pair and leaves the other pairs alone |
| TagLedger.AssociateOutcome | legadilo/reading/views/list_of_articles_views.py:214-219 | after an association a selected pair that was new, or not DELETED, or re-added with readd_deleted carries the new reason; a DELETED pair without readd_deleted stays DELETED |
| TagLedger.DeletedSurvivesFeedSync | legadilo/reading/models/article.py:400-406 | a tag the user deleted stays inactive when a feed re-tags the article as FROM_FEED |
| TagLedger.Dissociate | legadilo/reading/views/list_of_articles_views.py:226 | dissociating keeps every row, makes every selected pair DELETED and leaves every other pair as it was |
| TagLedger.DissociateOutcome | legadilo/reading/tests/test_views/test_list_of_articles_views.py:255-264 | a removed tag that was attached becomes DELETED and its row is kept |
| TagLedger.DissociateNotInList | legadilo/reading/views/article_details_views.py:102 | every pair of the article outside the kept tags becomes DELETED; the article's kept pairs and every other article's rows are unchanged |
| TagLedger.UnselectedArticlesUnchanged | legadilo/reading/tests/test_views/test_list_of_articles_views.py:265-272 | an add followed by a remove leaves the pairs of unselected articles unchanged |
| TagLedger.ReplaceOutcome | legadilo/reading/views/article_details_views.py:98-102 | after the details-view replace the submitted tags are ADDED_MANUALLY and active, and every other tag of the article is inactive |
| Common.Dedup | legadilo/reading/models/article.py:658-660 | `dict.fromkeys` keeps each element once, in first-seen order, with the same members |
| Common.DedupUnionOfDistinct | legadilo/reading/models/article.py:658-660 | deduplicating old ++ new keeps a duplicate-free old list as a prefix and its members are those of both |
| Common.MaxOrNone | legadilo/reading/models/article.py:661 | the maximum of the known values, none when neither is known |
| Common.MinOrNone | legadilo/reading/models/article.py:662 | the minimum of the known values, none when neither is known |
| Common.Truncate | legadilo/reading/models/article.py:647 | a slice to the column length: the whole string when it is not longer than the length, otherwise its first `n` characters |
| Common.OrElse | legadilo/reading/models/article.py:647-657 | Python's `x or y` on strings: x when non-empty, y otherwise; empty only when both are |
| Common.Code | legadilo/feeds/views/subscribe_to_feed_view.py:145-222 | every status the views return is a 2xx or 4xx code, and it is below 300 exactly for OK and CREATED; the exact codes are those of `SubscribeView.StatusCodes` |
| ArticleMerge.UpdateArticleFromData | legadilo/reading/models/article.py:634-668 | reports an update iff the data is more recent, brings content where there was none, or the update is forced; otherwise the article is unchanged; the (user, link) key never changes |
| ArticleMerge.MergedReadingTime | legadilo/reading/models/article.py:653-655 | with at least one minute of words the reading time is the whole number of minutes the content takes at the user's speed; with less it stays the stored value |
| ArticleMerge.FullUpdate | legadilo/reading/models/article.py:646-662 | a full update keeps the (user, link) key and changes no column outside title, slug, summary, content, reading time, picture URL and alt, authors, contributors, external tags, updated_at and published_at |
| ArticleMerge.FullUpdateKeepsText | legadilo/reading/models/article.py:647-657 | empty incoming title, summary or content keeps the stored one and non-empty text replaces it, the title cut to 255; the slug is the slug of that cut title, or the stored slug when it slugifies to nothing; the alt text falls back to the stored one; the reading time is recomputed from the resulting content; stored text never becomes empty |
| ArticleMerge.FullUpdateUnionsLists | legadilo/reading/models/article.py:658-660 | authors, contributors and external tags become the stored list without its duplicates (the stored list itself when it has none), followed by the new values not already there; no duplicates; exactly the values of both lists |
| ArticleMerge.FullUpdateDates | legadilo/reading/models/article.py:661-662 | updated_at becomes the later and published_at the earlier of the known dates |
| ArticleMerge.FullUpdatePictureFallback | legadilo/reading/models/article.py:656 | an empty incoming picture URL is replaced by the stored picture's alt text, as written |
| ArticleMerge.FullUpdateKeepsState | legadilo/reading/models/article.py:646-662 | a merge never touches read/opened dates, favourite and for-later flags, source, language or technical dates |
| ArticleMerge.ContentOnlyUpdate | legadilo/reading/models/article.py:663-664 | stale data with content for an article without content changes the content alone |
| ArticleMerge.MergeIdempotent | legadilo/reading/models/article.py:637-644 | merging the same dated data a second time reports no update |
| ArticleMerge.ReconcileExisting | legadilo/reading/models/article.py:336-346 | the merge the batch applies to a stored article (the one the store's batch uses) keeps the article's key |
| ArticleMerge.ManualOverride | legadilo/reading/models/article.py:339-346 | a MANUAL batch always queues the stored article, makes it MANUAL, clears read_at and stamps obj_updated_at |
| ArticleMerge.FeedSourceIsPlainMerge | legadilo/reading/models/article.py:336-338 | a FEED batch applies the plain merge |
| ArticleMerge.NewArticle | legadilo/reading/models/article.py:350-375 | the article the batch builds for an unknown link sits under (user, link); its reading time is the word count divided by the words per minute, rounded down; its source is the batch's; it is read iff the data has read_at |
| ArticleMerge.Persist | legadilo/reading/models/article.py:379-397 | the row `bulk_update` writes keeps every column missing from the field list (key, external id, language, opened_at, flags, source title, published_at, obj_created_at); a merged object that changed only listed columns is written unchanged |
| ArticleMerge.PersistDropsOnlyPublishedAt | legadilo/reading/models/article.py:379-397 | `bulk_update` stores every change of the merge except published_at, which is not in the field list |
| ArticleMerge.UpdateFromDetails | legadilo/reading/models/article.py:670-672 | the title and reading time are replaced and nothing else changes |
| ArticleMerge.Save | legadilo/reading/models/article.py:628-632 | an empty slug is derived from the title, and `super().save()` gives the `auto_now` column obj_updated_at (article.py:596-599) the instant of the save; nothing else changes |
| ArticleBatch.FirstWithLink | legadilo/reading/models/article.py:328-333 | the record the loop keeps for a link has that link and is its first occurrence in the batch |
| ArticleBatch.Outcome | legadilo/reading/models/article.py:333-375 | a link with no stored article always yields a row to write; `OutcomeAtFirst` ties it to the first record of the link |
| ArticleBatch.StoreAfterBatch | legadilo/reading/models/article.py:326-397 | the table after the batch has the stored rows plus one row per link of the batch; a stored row changes only when it is the user's, its link is in the batch and its merge reported an update; columns missing from the `bulk_update` list never change |
| ArticleBatch.ClassifyBatch | legadilo/reading/models/article.py:326-375 | after the loop, every stored article of the batch is merged with the first record of its link, the updated ones are queued, and each unknown link queues one new article |
| ArticleBatch.ClassifyRecord | legadilo/reading/models/article.py:329-375 | one iteration keeps the classification invariant, skipping a link already seen |
| ArticleBatch.EnumerateValues | legadilo/reading/models/article.py:399 | the dictionary's values: each stored row once |
| ArticleBatch.BulkWriteMatches | legadilo/reading/models/article.py:326-397 | what the loop, the `bulk_create` of the new rows and the `bulk_update` of the listed fields leave is the table `StoreAfterBatch` describes |
| ArticleBatch.BatchResultCovers | legadilo/reading/models/article.py:399-408 | the returned list is the new rows followed by the stored ones, one per link of the batch, each the outcome of its link |
| ArticleStore.ReasonFor | legadilo/reading/models/article.py:403-405 | a batch tags FROM_FEED iff its source is FEED, ADDED_MANUALLY otherwise, never DELETED |
| ArticleStore.Store.UpdateOrCreateFromArticlesList | legadilo/reading/models/article.py:308-408 | an empty batch returns [] and changes nothing; a batch whose `StoreAfterBatch` holds a row that does not fit its columns fails with a DataError and changes neither the table nor the tags; otherwise the table is `StoreAfterBatch`, the batch's articles are tagged with the batch reason, and the result has one article per link, new rows first |
| ArticleStore.LongNewTitleFailsBatch | legadilo/reading/models/article.py:350-355 | a new article takes its title untruncated, so a first record for an unknown link with a title over 255 characters makes the batch fail |
| ArticleStore.BatchCreatesFromFirstRecord | legadilo/reading/models/article.py:329-375 | an unknown link becomes the new article built from its first record |
| ArticleStore.BatchManualOverride | legadilo/reading/models/article.py:339-346 | after a MANUAL batch every stored article it names is unread and MANUAL; rows outside the batch are as they were |
| ArticleStore.Store.CreateInvalidArticle | legadilo/reading/models/article.py:411-435 | fails with a DataError, recording nothing, iff (user, link) is absent and the new article does not fit its columns; otherwise the article is created and tagged iff (user, link) is absent, the stored one is returned unchanged when present, and one fetch error is recorded either way |
| ArticleStore.InvalidArticleFits | legadilo/reading/models/article.py:425-427 | the invalid article fits iff the sanitized link and its slug have at most 255 characters and the link at most 1024 |
| ArticleStore.InvalidArticle | legadilo/reading/models/article.py:425-427 | an invalid article is an unread article without content under (user, link) |
| ArticleStore.Touched | legadilo/reading/models/article.py:258-281 | the rows an action's UPDATE matches are selected, stored rows |
| ArticleStore.ApplyAction | legadilo/reading/models/article.py:258-281 | an action keeps the table's keys |
| ArticleStore.Store.UpdateArticlesFromAction | legadilo/reading/models/article.py:258-281 | the table becomes `ApplyAction` of the selection and the count is the number of rows the UPDATE touched; tags and fetch errors are unchanged |
| ArticleStore.DoNothingChangesNothing | legadilo/reading/models/article.py:264-265 | DO_NOTHING changes nothing and touches 0 rows |
| ArticleStore.MarkAsReadOutcome | legadilo/reading/models/article.py:266-267 | MARK_AS_READ leaves every selected article read, keeps existing read dates, leaves unselected articles alone, and touches exactly the selected unread rows |
| ArticleStore.MarkAsOpenedOutcome | legadilo/reading/models/article.py:278-279 | MARK_AS_OPENED leaves every selected article opened, keeps existing opened dates, leaves unselected articles alone |
| ArticleStore.FlagActionsOutcome | legadilo/reading/models/article.py:268-277 | the flag actions set their flag on every selected article and touch every selected row |
| ArticleStore.ApplyActionKeepsKeys | legadilo/reading/models/article.py:605-608 | no action breaks the (user, link) keying of the table |
| ArticleStore.CountUnread | legadilo/reading/models/article.py:440-458 | the counts have exactly one entry per slug of the given lists |
| ArticleStore.CountUnreadLastWins | legadilo/reading/models/article.py:443-449 | the count of a slug is the number of the user's unread articles matching the last list with that slug |
| ArticleStore.UnreadMatchingIsDeclarative | legadilo/reading/models/article.py:452-458 | what is counted is exactly the user's unread articles matching the list |
| ArticleStore.ReadOnlyListCountsZero | legadilo/reading/models/article.py:450-456 | an ONLY_READ list has no unread article to count |
| ArticleStore.CountBoundedByUnread | legadilo/reading/models/article.py:452-458 | no count exceeds the number of the user's unread articles |
| ArticleStore.ListingKeys | legadilo/reading/models/article.py:173-181 | a reading list selects exactly the owner's articles that match it |
| ArticleStore.ArticlesOfReadingList | legadilo/reading/models/article.py:437-438 | the listing holds exactly the owner's matching articles, one entry per selected row, sorted by `default_order_by(order_direction)` |
| ReadingViews.Selected | legadilo/reading/views/list_of_articles_views.py:215 | the selection is the stored articles the query keeps, given their current active tags |
| ReadingViews.CleanRemoveTags | legadilo/reading/views/list_of_articles_views.py:192-199 | succeeds with the tags unchanged iff all are known; otherwise the error names the first unknown tag, "… is not a known tag" |
| ReadingViews.UpdateListOfArticles | legadilo/reading/views/list_of_articles_views.py:202-230 | an invalid form answers 400 and changes nothing; a valid one answers 200 after adding tags, removing tags and applying the action, each on the selection as it stands then |
| ReadingViews.TagBlindSelectionIsStable | legadilo/reading/models/article.py:192-199 | the external-tag view's query, which ignores tags, selects the same articles at every step |
| ReadingViews.AddStepKeepsSelection | legadilo/reading/views/list_of_articles_views.py:210-221 | for both callers' queries — the tag view's `for_tag` (article.py:183-189) and the external-tag view's — the add step leaves the selection the remove step sees unchanged |
| ReadingViews.ListUpdateTags | legadilo/reading/tests/test_views/test_list_of_articles_views.py:236-264 | in the tag view and in the external-tag view, each selected article ends with the added tags (not also removed) as ADDED_MANUALLY and the removed ones it had as DELETED |
| ReadingViews.ListUpdateLeavesOthers | legadilo/reading/tests/test_views/test_list_of_articles_views.py:265-272 | in the tag view and in the external-tag view, an unselected article keeps its read date and every association |
| ReadingViews.MarkAsReadReachesWholeSelection | legadilo/reading/tests/test_views/test_list_of_articles_views.py:219-231 | MARK_AS_READ reaches every article the query selects, not only a page |
| ReadingViews.RemovingTheSelectingTagEmptiesTheAction | legadilo/reading/views/list_of_articles_views.py:221-228 | in the tag view, when the form removes the view's tag, the action then applies to no article |
| ReadingViews.HandleUpdate | legadilo/reading/views/article_details_views.py:82-107 | an invalid form answers 400 and changes nothing; a valid form whose edited article does not fit its columns raises a DataError and changes neither the article nor its tags; otherwise it answers 200, replaces the article's tags, sets title and reading time and saves at `now`; the returned article is the stored one |
| ReadingViews.EditFitsIffReadingTimeFits | legadilo/reading/views/article_details_views.py:28-29 | for a valid form on an article with a slug, the save succeeds iff the reading time fits a PostgreSQL `integer` (the form sets no maximum) |
| ReadingViews.EditOutcome | legadilo/reading/views/article_details_views.py:98-104 | after a valid edit the active tags are exactly the submitted ones, the other tags are DELETED, obj_updated_at is the instant of the save, and otherwise only title, reading time (and an empty slug) change |
| FeedsArticles.BuildFilters | legadilo/feeds/models/article.py:20-41 | the compiled filter always starts with the owner clause |
| FeedsArticles.FiltersAgree | legadilo/feeds/models/article.py:20-41 | the feeds app's filter holds iff the article's feed is the user's and it matches the read, favourite and age criteria |
| FeedsArticles.NoCriteriaMeansOwnerOnly | legadilo/feeds/models/article.py:21-41 | a list without criteria compiles to the owner clause alone |
| FeedsArticles.NewestFirstIsTotalPreorder | legadilo/feeds/models/article.py:91 | `-published_at` is a total order |
| FeedsArticles.ListingKeys | legadilo/feeds/models/article.py:20-41 | a reading list selects exactly the rows that match it |
| FeedsArticles.ArticlesOfReadingList | legadilo/feeds/models/article.py:90-91 | the listing is exactly the matching rows, one entry per selected row, newest publication first |
| FeedsArticles.BatchKeys | legadilo/feeds/models/article.py:87 | the keys a batch upserts are (feed, id in feed) of its entries |
| FeedsArticles.EntryFor | legadilo/feeds/models/article.py:57-72 | the entry for an id is an entry of the batch with that id |
| FeedsArticles.Inserted | legadilo/feeds/models/article.py:57-72 | an inserted row sits under its key and is unread, unopened and not favourite |
| FeedsArticles.Overwritten | legadilo/feeds/models/article.py:73-88 | a conflict overwrites the listed fields only: key, read/opened/favourite flags and created_at stay |
| FeedsArticles.Upserted | legadilo/feeds/models/article.py:73-88 | after an upsert the keys are the old ones plus the batch's; rows outside the batch are unchanged |
| FeedsArticles.FeedsArticleTable.UpdateOrCreateFromArticlesList | legadilo/feeds/models/article.py:53-88 | an empty batch is a no-op; a batch with a repeated id, or with a link over the 200 characters of the `URLField` column (feeds/models/article.py:101), fails without change; otherwise the table is `Upserted` |
| FeedsArticles.EntryForFindsIt | legadilo/feeds/models/article.py:57-72 | in a batch without repeated ids every entry is found by its id |
| FeedsArticles.UpsertStoresEveryEntry | legadilo/feeds/models/article.py:73-88 | every entry is a row under its key with the entry's fields |
| FeedsArticles.UpsertGrowsByNewKeys | legadilo/feeds/models/article.py:116-121 | the table grows by exactly the new keys: never two rows for one (feed, id in feed) |
| FeedsArticles.UpsertIsIdempotent | legadilo/feeds/models/article.py:73-88 | upserting the same batch twice at the same instant equals upserting it once |
| FeedsReadingLists.AppendKeepsConstraints | legadilo/feeds/models/reading_list.py:95-104 | a row that clashes with no slug or default of its user keeps the constraints |
| FeedsReadingLists.Where | legadilo/feeds/models/reading_list.py:53-60 | a filter keeps exactly the rows satisfying it |
| FeedsReadingLists.GetReadingList | legadilo/feeds/models/reading_list.py:52-57 | a found list is the user's default list (no slug) or the user's list with the slug; DoesNotExist iff there is none |
| FeedsReadingLists.AtMostOneWanted | legadilo/feeds/models/reading_list.py:95-104 | under the constraints at most one row is wanted by a lookup |
| FeedsReadingLists.NeverMultiple | legadilo/feeds/models/reading_list.py:52-57 | under the constraints `get_reading_list` never returns MultipleObjectsReturned |
| FeedsReadingLists.ListOrderIsTotalPreorder | legadilo/feeds/models/reading_list.py:94 | ordering by (order, id) is total |
| FeedsReadingLists.AllForUser | legadilo/feeds/models/reading_list.py:59-60 | exactly the user's lists, each once, sorted by (order, id) |
| FeedsReadingLists.DefaultLists | legadilo/feeds/models/reading_list.py:14-50 | five lists of the user with consecutive ids and orders 0, 10, 20, 30, 40 |
| FeedsReadingLists.DefaultListsShape | legadilo/feeds/models/reading_list.py:15-50 | "Unread" (ONLY_UNREAD) is the only default; "Recent" has 2 DAYS; "Favorite" ONLY_FAVORITE; "Archive" ONLY_READ; "All articles" no criteria |
| FeedsReadingLists.ReadingListTable.CreateDefaultLists | legadilo/feeds/models/reading_list.py:13-50 | succeeds iff the defaults fit the user's lists, then appends the five; otherwise the table is unchanged |
| FeedsReadingLists.ReadingListTable.CreateNthDefault | legadilo/feeds/models/reading_list.py:15-49 | the i-th insert succeeds iff that default clashes with none of the user's earlier lists and appends it; otherwise the table rolls back to before the first insert |
| FeedsReadingLists.ReadingListTable.Create | legadilo/feeds/models/reading_list.py:64-75 | a row outside its column limits (name over 255, slug over 50, order or max age outside `integer`) fails with a DataError and changes nothing; a row that fits fails with an IntegrityError iff it breaks a uniqueness constraint (reading_list.py:95-104); otherwise it is appended with the next id |
| FeedsReadingLists.DefaultListsFitColumns | legadilo/feeds/models/reading_list.py:15-50 | each of the five default lists fits the column limits, so `create_default_lists` fails only on a uniqueness constraint |
| FeedsReadingLists.ReadingListTable.Delete | legadilo/feeds/models/reading_list.py:124-128 | deleting a default list fails with "Cannot delete default list" and removes nothing; any other list is removed |
| FeedsReadingLists.WhereKeepsConstraints | legadilo/feeds/models/reading_list.py:95-104 | removing rows keeps the constraints |
| FeedsReadingLists.DefaultLookupAfterCreation | legadilo/feeds/models/reading_list.py:52-55 | after creating the defaults, `get_reading_list(user, None)` is "Unread" |
| FeedsReadingLists.WhereOfOne | legadilo/feeds/models/reading_list.py:52-57 | a lookup that exactly one row satisfies finds that row alone |
| FeedsReadingLists.WhereOfNone | legadilo/feeds/models/reading_list.py:52-57 | a lookup that no row satisfies finds nothing |
| FeedUpdates.InWindow | legadilo/feeds/models/feed_update.py:38-41 | the window holds exactly the feed's updates created strictly after its start |
| FeedUpdates.CountStatus | legadilo/feeds/models/feed_update.py:42-49 | a status count never exceeds the rows counted |
| FeedUpdates.CountPositive | legadilo/feeds/models/feed_update.py:42-52 | a count is positive iff a row with that status is there |
| FeedUpdates.MustDisableMeaning | legadilo/feeds/models/feed_update.py:34-52 | `must_disable_feed` holds iff the window has a FAILURE and no SUCCESS of the feed |
| FeedUpdates.EmptyWindowKeepsFeed | legadilo/feeds/models/feed_update.py:38-52 | without updates of the feed in the window the feed is never disabled |
| FeedUpdates.NotModifiedIsNeutral | legadilo/feeds/models/feed_update.py:43-48 | a NOT_MODIFIED update changes neither tally |
| FeedUpdates.FailureJustLogged | legadilo/feeds/models/feed_update.py:34-52 | right after a failure is logged, the feed is to be disabled iff the window holds no success |
| FeedUpdates.LatestSuccess | legadilo/feeds/models/feed_update.py:31-32 | none iff the feed has no success; otherwise a success of the feed not older than any other |
| FeedUpdates.FeedUpdateLog.Create | legadilo/feeds/models/feed_update.py:55-63 | appends one row stamped with the current instant |
| Feeds.Feed.constructor | legadilo/feeds/models/feed.py:84-88 | a new feed is enabled with an empty disabled reason |
| Feeds.Feed.Disable | legadilo/feeds/models/feed.py:129-131 | the feed is disabled with the reason, the check constraint still holds, nothing else changes |
| Feeds.FeedArticleLinks.BulkCreateIgnoringConflicts | legadilo/feeds/models/feed.py:61-64 | the links become the old ones plus (feed, article) for each article; existing ones are kept once |
| Feeds.OnlyFeedsToUpdate | legadilo/feeds/models/feed.py:19-24 | exactly the enabled feeds, restricted to the ids when a non-empty id list is given |
| Feeds.FalsyIdsMeanAllEnabled | legadilo/feeds/models/feed.py:21 | with no ids or an empty list every enabled feed is updated; a disabled one never is |
| Feeds.UpdateFeed | legadilo/feeds/models/feed.py:48-64 | appends one SUCCESS update with etag and last-modified date and links the feed to the returned articles |
| Feeds.UpdateFeedIsLatestSuccess | legadilo/feeds/models/feed_update.py:31-32 | after `update_feed` the latest success of the feed is stamped with the instant of the update; when every earlier row is strictly older, it is the row just logged |
| Feeds.LogError | legadilo/feeds/models/feed.py:66-75 | appends one FAILURE update with the message, then disables the feed with the fixed reason iff `must_disable_feed`; otherwise the feed is unchanged |
| Feeds.LogNotModified | legadilo/feeds/models/feed.py:77-81 | appends one NOT_MODIFIED update and leaves the feed alone |
| SubscribeView.Check | legadilo/feeds/views/subscribe_to_feed_view.py:114 | one element raises TypeError iff it has no length (null, bool, number), KeyError iff it is a 2-key object; a pair of strings passes |
| SubscribeView.Scan | legadilo/feeds/views/subscribe_to_feed_view.py:113-115 | no verdict iff every element passes; otherwise the verdict of the first failing element |
| SubscribeView.ProposedChoices | legadilo/feeds/views/subscribe_to_feed_view.py:105-117 | malformed JSON and non-lists load as [] |
| SubscribeView.LoadProposedFeedChoices | legadilo/feeds/views/subscribe_to_feed_view.py:105-117 | the loop returns what `ProposedChoices` says for the parsed text |
| SubscribeView.FirstFailureDecides | legadilo/feeds/views/subscribe_to_feed_view.py:113-115 | the first element that fails decides the outcome |
| SubscribeView.LoadedAreAllPairs | legadilo/feeds/views/subscribe_to_feed_view.py:105-117 | a loaded list holds only pairs of strings, and a non-empty one is the parsed list itself |
| SubscribeView.PairsLoadUnchanged | legadilo/feeds/views/subscribe_to_feed_view.py:113-117 | a list of pairs loads unchanged; a first non-pair that is rejected makes it [] |
| SubscribeView.BuildFeedChoices | legadilo/feeds/views/subscribe_to_feed_view.py:96-103 | with proposed choices the field is required, the URL read-only and the choices the loaded list; without them neither |
| SubscribeView.FeedUrl | legadilo/feeds/views/subscribe_to_feed_view.py:122-124 | the non-empty chosen feed, the URL otherwise |
| SubscribeView.EncodeUrls | legadilo/feeds/views/subscribe_to_feed_view.py:184 | the found feed URLs as a JSON list of [url, title] pairs |
| SubscribeView.HandleCreation | legadilo/feeds/views/subscribe_to_feed_view.py:145-222 | choices are re-proposed iff multiple feeds were found; the form is emptied iff the answer is 201 |
| SubscribeView.StatusCodes | legadilo/feeds/tests/test_views/test_subscribe_to_feed_view.py:116-233 | invalid form, no feed URL, multiple feeds, too big, parse errors → 400; fetch error → 406; already subscribed → 409; success → 201 |
| SubscribeView.SubmittedFormKept | legadilo/feeds/views/subscribe_to_feed_view.py:147-210 | every outcome but multiple feeds and success renders the submitted form again |
| SubscribeView.ReproposedChoicesRoundTrip | legadilo/feeds/views/subscribe_to_feed_view.py:180-191 | the re-proposed form's choices are required and equal the found feeds |
| SubscribeView.SubscribeToFeedView | legadilo/feeds/views/subscribe_to_feed_view.py:127-136 | a GET answers 200 with an empty form; a POST answers what `_handle_creation` does |
| Notifications.SetReadAt | legadilo/users/models/notification.py:52-64 | the selected rows get the new read_at and nothing else; the other rows are unchanged |
| Notifications.NotificationTable.MarkAsRead | legadilo/users/models/notification.py:52-57 | sets read_at to now on the user's notifications, or on the one with the truthy id |
| Notifications.NotificationTable.MarkAsUnread | legadilo/users/models/notification.py:59-64 | clears read_at with the same selection |
| Notifications.ZeroIdMeansAll | legadilo/users/models/notification.py:54 | id 0 is falsy and selects like no id |
| Notifications.MarkAllOutcome | legadilo/users/models/notification.py:46-57 | after marking all read the user has nothing unread; after marking all unread `has_unread` holds iff the user has a notification |
| Notifications.TruthyIdSelectsOne | legadilo/users/models/notification.py:53-55 | with a truthy id only the row with that id can change |
| Notifications.OtherUsersUntouched | legadilo/users/models/notification.py:53 | another user's `has_unread` is unchanged by marking |
| Notifications.MarkReadOverwrites | legadilo/users/models/notification.py:57 | marking read overwrites read_at even on an already read notification |

## Left out

- HTTP plumbing and rendering are not modelled: templates, messages, pagination, HTMX, login and CSP decorators. Only the statuses and the form a view renders are modelled.
- Fetching and parsing feeds is not modelled (`get_feed_data`, network errors, XML/HTML parsing, file size limits). In the subscribe view the attempt's outcome is an input.
- `Feed.objects.create_from_metadata` and the feed tag and category managers are left out. At this revision of the repository the subscribe view calls `create_from_metadata` with five positional arguments and `open_original_link_by_default` (legadilo/feeds/views/subscribe_to_feed_view.py:160-166), while `feed.py` defines it with three (legadilo/feeds/models/feed.py:34), so that call raises TypeError.
- Feeds.UpdateFeed: `FeedManager.update_feed` takes the articles that the reconciliation returned as a parameter. At this revision of the repository `update_feed` (legadilo/feeds/models/feed.py:48-54) calls the feeds app's `update_or_create_from_articles_list(articles_data, feed_id)` (legadilo/feeds/models/article.py:53) with three positional arguments and `source_type=`, so that call raises TypeError before any row is written. The model leaves that crash out and records the update as the code evidently means it.
- The `ArticleTag` manager (`reading/models/tag.py`) is not part of this model. Its associate and dissociate operations are modelled from the behaviour the tests and views show: a pair becomes DELETED rather than being deleted, and a DELETED pair comes back only with readd_deleted.
- The tag table is not modelled: `Tag.get_or_create_from_list` is the parameter `resolve`. The tags it may create are not seen.
- `slugify`, `full_sanitize`, `get_nb_words_from_html`, `utcnow`, `json.loads` and `json.dumps` are parameters. Their own behaviour is not modelled. The round trip of the JSON library is a stated assumption, `RoundTrips`.
- `FEED_ERRORS_TIME_WINDOW` is a parameter. Its value in the settings is not modelled.
- Transactions, races and `IntegrityError` fallbacks are not modelled. Each operation is atomic in the model.
- PostgreSQL sequences are not modelled. A failed `create_default_lists` may still use up ids; the model only says the next id grew.
- The feed-type check constraint and the (feed_url, user) unique constraint of `Feed` are not modelled. No modelled operation creates a feed.
- ORM mechanics are not modelled: `ArrayAgg`, `Prefetch`, `for_feed_links`, `select_related`, the export, and dictionary iteration order. The model fixes some order of the stored articles the batch returns.
- Django form validation is reduced to its outcome. The model does not cover CharField whitespace stripping, the `MultipleTagsField` choices check on add_tags, or the `ChoiceField` check on update_action: a rejected action is an absent one.
- `Article.update_article_from_data` is modelled on values: the function returns the new article and the boolean, and the store writes it back. Object identity and aliasing of the in-memory article are not modelled.
- ArticleStore.Store.UpdateOrCreateFromArticlesList, ArticleStore.Store.CreateInvalidArticle and ReadingViews.HandleUpdate model the DataError of the article's title, slug, link, picture URL and reading-time columns (`FitsColumns`). The widths of `external_article_id`, `language` and `main_source_title` come from constants that are not part of this model, so a value too wide for those columns is accepted by the model where PostgreSQL raises.
- Nullable text columns other than `technical_debug_data` are modelled as strings, with "" for empty.
- FeedUpdates.LatestSuccess: ties between successes with the same created_at are broken by insertion order. The database may return any of them.
- ArticleStore.ArticlesOfReadingList: articles with the same sort key may come in any order in the database. The model states membership, count and sortedness, so it fixes no order among them.
- FeedsArticles.ArticlesOfReadingList: ties on published_at likewise come in an unspecified order.
- `ArticleManager.export`, the tag listings and the JavaScript front end are left out. They are outside this core.
- Feeds.LogError: the `modified_at` column of `Feed` (legadilo/feeds/models/feed.py:103) is not part of the feed entity, so the `auto_now` stamp that `feed.save()` puts on it when `log_error` disables a feed (feed.py:75) is not modelled. The article's `auto_now` column obj_updated_at is modelled, in `ArticleMerge.Save`.
- ReadingFilters.BuildFilters, ReadingFilters.AgeClauses, FeedsArticles.BuildFilters and the listings and counts built on them use the calendar threshold `NowMinus` as if it can always be computed. When the age limit reaches back past 0001-01-01 the source raises (OverflowError or ValueError) and the request fails. `Time.AgeThreshold` says exactly when that happens, but the filters do not carry that error.
- ArticleMerge.UpdateArticleFromData, ArticleMerge.NewArticle, ArticleMerge.ReconcileExisting and ArticleStore.Store.UpdateOrCreateFromArticlesList require a positive `default_reading_time` on every path that divides by it. The column accepts 0, and then the source raises ZeroDivisionError (legadilo/reading/models/article.py:359, 654) and the batch is rolled back. The stale and content-only merges need no reading time.
- The `annotations` column of `Article` and the queryset annotations are not modelled: the feed ids, slugs and open-original flags that `for_feed_links` annotates (legadilo/reading/models/article.py:160-171) only feed the rendering.
- Translations are not modelled: names and messages are the English strings.
