/** The feeds of the feeds app and the manager operations that record a
    fetch: a feed is a row whose `enabled` flag and `disabled_reason` the
    code updates in place, under the check constraint that an enabled feed
    has no disabled reason. Each recorded fetch appends a row to the update
    log; a successful one also links the feed to its articles. */
module Feeds {
  import opened Common
  import opened Time
  import opened FeedUpdates

  type UserId = nat
  type ArticleId = nat

  /** The reason `log_error` gives when it disables a feed. */
  const TooManyFailures: string := "We failed too many times to fetch the feed"

  class Feed {
    const id: FeedId
    const user: UserId
    var feedUrl: string
    var siteUrl: string
    var title: string
    var description: string
    var feedType: string
    var enabled: bool
    var disabledReason: string

    /** The check constraint `disabled_reason_empty_when_enabled`. */
    ghost predicate Valid()
      reads this
    {
      enabled ==> disabledReason == ""
    }

    /** A new feed is enabled, without a disabled reason. */
    constructor (id: FeedId, user: UserId, feedUrl: string, siteUrl: string, title: string, description: string, feedType: string)
      ensures Valid()
      ensures this.id == id && this.user == user && this.feedUrl == feedUrl && this.siteUrl == siteUrl
      ensures this.title == title && this.description == description && this.feedType == feedType
      ensures enabled && disabledReason == ""
    {
      this.id := id;
      this.user := user;
      this.feedUrl := feedUrl;
      this.siteUrl := siteUrl;
      this.title := title;
      this.description := description;
      this.feedType := feedType;
      enabled := true;
      disabledReason := "";
    }

    /** `disable(reason="")`. */
    method Disable(reason: string)
      requires Valid()
      modifies this
      ensures Valid()
      ensures !enabled && disabledReason == reason
      ensures feedUrl == old(feedUrl) && siteUrl == old(siteUrl) && title == old(title)
      ensures description == old(description) && feedType == old(feedType)
    {
      disabledReason := reason;
      enabled := false;
    }
  }

  /** The `FeedArticle` table. Its unique constraint on (feed, article)
      makes it a set of pairs. */
  class FeedArticleLinks {
    var links: set<(FeedId, ArticleId)>

    constructor ()
      ensures links == {}
    {
      links := {};
    }

    /** `bulk_create(..., ignore_conflicts=True)`: a pair already there is
        skipped instead of failing the insert. */
    method BulkCreateIgnoringConflicts(feed: FeedId, articles: seq<ArticleId>)
      modifies this
      ensures links == old(links) + set a | a in articles :: (feed, a)
    {
      links := links + set a | a in articles :: (feed, a);
    }
  }

  /** Does a feed id list count as given? `if feed_ids:` is false for None
      and for the empty list. */
  predicate Truthy(ids: Option<seq<FeedId>>) {
    ids.Some? && |ids.value| > 0
  }

  /** `only_feeds_to_update(feed_ids)`: the enabled feeds, restricted to
      `feed_ids` when that list is given and not empty. */
  function OnlyFeedsToUpdate(feeds: seq<Feed>, ids: Option<seq<FeedId>>): (r: seq<Feed>)
    reads feeds
    ensures forall i :: 0 <= i < |r| ==> r[i] in feeds && r[i].enabled && (Truthy(ids) ==> r[i].id in ids.value)
    ensures forall i :: 0 <= i < |feeds| && feeds[i].enabled && (Truthy(ids) ==> feeds[i].id in ids.value) ==> feeds[i] in r
    ensures |r| <= |feeds|
  {
    if |feeds| == 0 then []
    else
      assert feeds == [feeds[0]] + feeds[1..];
      var f := feeds[0];
      (if f.enabled && (Truthy(ids) ==> f.id in ids.value) then [f] else []) + OnlyFeedsToUpdate(feeds[1..], ids)
  }

  /** `update_feed`: records a successful fetch with the etag and
      last-modified date of the fetched document, then links the feed to
      the articles the reconciliation returned. That list is a parameter:
      it comes from the article upsert, whose signature differs between
      the two apps. */
  method UpdateFeed(feed: Feed, log: FeedUpdateLog, links: FeedArticleLinks, createdArticles: seq<ArticleId>,
                    etag: string, lastModified: Option<Instant>, now: Instant)
    modifies log, links
    ensures log.updates == old(log.updates) + [FeedUpdate(FeedUpdateStatus.Success, "", etag, lastModified, feed.id, now)]
    ensures links.links == old(links.links) + set a | a in createdArticles :: (feed.id, a)
  {
    log.Create(FeedUpdateStatus.Success, "", etag, lastModified, feed.id, now);
    links.BulkCreateIgnoringConflicts(feed.id, createdArticles);
  }

  /** `log_error`: records the failure, then disables the feed when the
      error window holds failures and no success. */
  method LogError(feed: Feed, log: FeedUpdateLog, errorMessage: string, now: Instant, window: nat)
    requires feed.Valid()
    modifies feed, log
    ensures feed.Valid()
    ensures log.updates == old(log.updates) + [FeedUpdate(FeedUpdateStatus.Failure, errorMessage, "", None, feed.id, now)]
    ensures MustDisableFeed(log.updates, feed.id, now, window) ==> !feed.enabled && feed.disabledReason == TooManyFailures
    ensures !MustDisableFeed(log.updates, feed.id, now, window) ==>
      feed.enabled == old(feed.enabled) && feed.disabledReason == old(feed.disabledReason)
    ensures feed.feedUrl == old(feed.feedUrl) && feed.siteUrl == old(feed.siteUrl) && feed.title == old(feed.title)
    ensures feed.description == old(feed.description) && feed.feedType == old(feed.feedType)
  {
    log.Create(FeedUpdateStatus.Failure, errorMessage, "", None, feed.id, now);
    if MustDisableFeed(log.updates, feed.id, now, window) {
      feed.Disable(TooManyFailures);
    }
  }

  /** `log_not_modified`: records that the document did not change; the
      feed is left as it is. */
  method LogNotModified(feed: Feed, log: FeedUpdateLog, now: Instant)
    modifies log
    ensures log.updates == old(log.updates) + [FeedUpdate(FeedUpdateStatus.NotModified, "", "", None, feed.id, now)]
  {
    log.Create(FeedUpdateStatus.NotModified, "", "", None, feed.id, now);
  }

  // ---------------------------------------------------------------------
  // Properties

  /** Without a truthy id list every enabled feed is to be updated, and a
      disabled feed never is. */
  lemma FalsyIdsMeanAllEnabled(feeds: seq<Feed>, f: Feed)
    requires f in feeds
    ensures f in OnlyFeedsToUpdate(feeds, None) <==> f.enabled
    ensures f in OnlyFeedsToUpdate(feeds, Some([])) <==> f.enabled
    ensures !f.enabled ==> forall ids :: f !in OnlyFeedsToUpdate(feeds, ids)
  {
  }

  /** After a successful update the latest success of the feed is stamped
      with the instant of the update, when the log holds no row from the
      future; when every earlier row is strictly older, it is the row just
      logged. */
  lemma UpdateFeedIsLatestSuccess(updates: seq<FeedUpdate>, feed: FeedId, etag: string, lastModified: Option<Instant>, now: Instant)
    requires forall u :: u in updates ==> u.createdAt <= now
    ensures var s := FeedUpdate(FeedUpdateStatus.Success, "", etag, lastModified, feed, now);
      LatestSuccess(updates + [s], feed).Some? && LatestSuccess(updates + [s], feed).value.createdAt == now
    ensures var s := FeedUpdate(FeedUpdateStatus.Success, "", etag, lastModified, feed, now);
      (forall u :: u in updates ==> u.createdAt < now) ==> LatestSuccess(updates + [s], feed) == Some(s)
  {
    var s := FeedUpdate(FeedUpdateStatus.Success, "", etag, lastModified, feed, now);
    assert s in updates + [s];
  }
}
