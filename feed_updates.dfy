/** The update log of the feeds app: one row per attempt to fetch a feed,
    with its outcome. A feed is disabled after failing in the error window
    without succeeding in it. The window length, `FEED_ERRORS_TIME_WINDOW`,
    is a parameter: its value is not part of this model. */
module FeedUpdates {
  import opened Common
  import opened Time

  type FeedId = nat

  datatype FeedUpdateStatus = Success | Failure | NotModified

  datatype FeedUpdate = FeedUpdate(
    status: FeedUpdateStatus,
    errorMessage: string,
    feedEtag: string,
    feedLastModified: Option<Instant>,
    feed: FeedId,
    createdAt: Instant)

  /** `for_feed(feed).filter(created_at__gt=since)`. */
  function InWindow(updates: seq<FeedUpdate>, feed: FeedId, since: Instant): (r: seq<FeedUpdate>)
    ensures forall u :: u in r <==> u in updates && u.feed == feed && u.createdAt > since
    ensures |r| <= |updates|
  {
    if |updates| == 0 then []
    else
      assert updates == [updates[0]] + updates[1..];
      var u := updates[0];
      (if u.feed == feed && u.createdAt > since then [u] else []) + InWindow(updates[1..], feed, since)
  }

  /** `Count("id", filter=Q(status=status))`. */
  function CountStatus(updates: seq<FeedUpdate>, status: FeedUpdateStatus): (n: nat)
    ensures n <= |updates|
  {
    if |updates| == 0 then 0
    else (if updates[0].status == status then 1 else 0) + CountStatus(updates[1..], status)
  }

  /** `must_disable_feed`: in the window there are errors and no success. */
  predicate MustDisableFeed(updates: seq<FeedUpdate>, feed: FeedId, now: Instant, window: nat) {
    var w := InWindow(updates, feed, now - window);
    CountStatus(w, FeedUpdateStatus.Failure) > 0 && CountStatus(w, FeedUpdateStatus.Success) == 0
  }

  /** The rows of one feed with a status, in any order. */
  predicate HasStatus(updates: seq<FeedUpdate>, feed: FeedId, status: FeedUpdateStatus) {
    exists u :: u in updates && u.feed == feed && u.status == status
  }

  /** `get_latest_success_for_feed`: under the ordering `-created_at` the
      first success of the feed is one with the latest `created_at`. Among
      rows created at the same instant the database may return any; this
      model returns the earliest inserted one. */
  function LatestSuccess(updates: seq<FeedUpdate>, feed: FeedId): (r: Option<FeedUpdate>)
    ensures r.None? <==> !HasStatus(updates, feed, FeedUpdateStatus.Success)
    ensures r.Some? ==> r.value in updates && r.value.feed == feed && r.value.status == FeedUpdateStatus.Success
    ensures r.Some? ==> forall u :: u in updates && u.feed == feed && u.status == FeedUpdateStatus.Success ==> u.createdAt <= r.value.createdAt
  {
    if |updates| == 0 then None
    else
      assert updates == [updates[0]] + updates[1..];
      var rest := LatestSuccess(updates[1..], feed);
      var u := updates[0];
      if u.feed == feed && u.status == FeedUpdateStatus.Success && (rest.None? || rest.value.createdAt <= u.createdAt) then Some(u)
      else rest
  }

  /** The table of updates. `created_at` is `auto_now_add`: the row gets the
      instant of its insertion, given here as `now`. */
  class FeedUpdateLog {
    var updates: seq<FeedUpdate>

    constructor ()
      ensures updates == []
    {
      updates := [];
    }

    /** `FeedUpdate.objects.create(...)`. */
    method Create(status: FeedUpdateStatus, errorMessage: string, etag: string, lastModified: Option<Instant>, feed: FeedId, now: Instant)
      modifies this
      ensures updates == old(updates) + [FeedUpdate(status, errorMessage, etag, lastModified, feed, now)]
    {
      updates := updates + [FeedUpdate(status, errorMessage, etag, lastModified, feed, now)];
    }
  }

  // ---------------------------------------------------------------------
  // Properties

  /** A count is positive exactly when a row with that status is there. */
  lemma {:induction false} CountPositive(updates: seq<FeedUpdate>, status: FeedUpdateStatus)
    ensures CountStatus(updates, status) > 0 <==> exists u :: u in updates && u.status == status
  {
    if |updates| > 0 {
      assert updates == [updates[0]] + updates[1..];
      CountPositive(updates[1..], status);
    }
  }

  /** `must_disable_feed` holds exactly when the feed failed in the window
      and did not succeed in it: `NOT_MODIFIED` rows, rows of other feeds
      and rows at or before the window start play no part. */
  lemma MustDisableMeaning(updates: seq<FeedUpdate>, feed: FeedId, now: Instant, window: nat)
    ensures MustDisableFeed(updates, feed, now, window) <==>
      HasStatus(InWindow(updates, feed, now - window), feed, FeedUpdateStatus.Failure) &&
      !HasStatus(InWindow(updates, feed, now - window), feed, FeedUpdateStatus.Success)
  {
    var w := InWindow(updates, feed, now - window);
    CountPositive(w, FeedUpdateStatus.Failure);
    CountPositive(w, FeedUpdateStatus.Success);
  }

  /** An update log with no row for the feed in the window never disables
      it. */
  lemma EmptyWindowKeepsFeed(updates: seq<FeedUpdate>, feed: FeedId, now: Instant, window: nat)
    requires forall u :: u in updates && u.feed == feed ==> u.createdAt <= now - window
    ensures !MustDisableFeed(updates, feed, now, window)
  {
    MustDisableMeaning(updates, feed, now, window);
  }

  /** A `NOT_MODIFIED` row changes neither tally. */
  lemma NotModifiedIsNeutral(updates: seq<FeedUpdate>, feed: FeedId, now: Instant, window: nat, u: FeedUpdate)
    requires u.status == NotModified
    ensures MustDisableFeed(updates + [u], feed, now, window) <==> MustDisableFeed(updates, feed, now, window)
  {
    MustDisableMeaning(updates, feed, now, window);
    MustDisableMeaning(updates + [u], feed, now, window);
    var w, w' := InWindow(updates, feed, now - window), InWindow(updates + [u], feed, now - window);
    assert forall s :: s != NotModified ==> (HasStatus(w, feed, s) <==> HasStatus(w', feed, s));
  }

  /** Right after a failure is logged at `now`, with a window of positive
      length, the feed is to be disabled exactly when it has no success in
      the window. */
  lemma FailureJustLogged(updates: seq<FeedUpdate>, feed: FeedId, msg: string, now: Instant, window: nat)
    requires window > 0
    ensures var after := updates + [FeedUpdate(FeedUpdateStatus.Failure, msg, "", None, feed, now)];
      MustDisableFeed(after, feed, now, window) <==> !HasStatus(InWindow(updates, feed, now - window), feed, FeedUpdateStatus.Success)
  {
    var u := FeedUpdate(FeedUpdateStatus.Failure, msg, "", None, feed, now);
    var after := updates + [u];
    MustDisableMeaning(after, feed, now, window);
    var w, w' := InWindow(updates, feed, now - window), InWindow(after, feed, now - window);
    assert u in w';
    assert HasStatus(w, feed, FeedUpdateStatus.Success) <==> HasStatus(w', feed, FeedUpdateStatus.Success);
  }
}
