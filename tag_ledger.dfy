/** The (article, tag) association ledger. Each pair carries the reason it
    was made; a removed association is not deleted but marked DELETED, so
    that a later feed synchronisation does not bring the tag back. Only
    associations whose reason is not DELETED take part in filtering
    (`for_current_tag_filtering`). */
module TagLedger {
  import opened Common
  import opened ReadingModel

  datatype TaggingReason = AddedManually | FromFeed | Deleted

  type Ledger = map<(ArticleKey, TagId), TaggingReason>

  /** `alias_tag_ids_for_article`: the tags of `k` whose association is not
      DELETED; empty for an article without any. */
  function ActiveTagIds(ledger: Ledger, k: ArticleKey): (r: set<TagId>)
    ensures forall t :: t in r <==> (k, t) in ledger && ledger[(k, t)] != Deleted
  {
    set p | p in ledger && p.0 == k && ledger[p] != Deleted :: p.1
  }

  /** The reason a pair has after `associate_articles_with_tags`: a new pair
      gets `reason`; an existing one is overwritten unless it is DELETED and
      `readdDeleted` is not set. */
  function ReasonAfterAssociate(previous: Option<TaggingReason>, reason: TaggingReason, readdDeleted: bool): TaggingReason
  {
    match previous
    case None => reason
    case Some(r) => if r == Deleted && !readdDeleted then Deleted else reason
  }

  function Lookup(ledger: Ledger, p: (ArticleKey, TagId)): Option<TaggingReason> {
    if p in ledger then Some(ledger[p]) else None
  }

  /** `associate_articles_with_tags(articles, tags, reason, readd_deleted)`. */
  function Associate(ledger: Ledger, keys: set<ArticleKey>, tags: set<TagId>, reason: TaggingReason, readdDeleted: bool): (r: Ledger)
    ensures r.Keys == ledger.Keys + (set k, t | k in keys && t in tags :: (k, t))
    ensures forall p :: p in ledger && !(p.0 in keys && p.1 in tags) ==> r[p] == ledger[p]
  {
    map p | p in ledger.Keys + (set k, t | k in keys && t in tags :: (k, t)) ::
      if p.0 in keys && p.1 in tags then ReasonAfterAssociate(Lookup(ledger, p), reason, readdDeleted)
      else ledger[p]
  }

  /** `dissociate_articles_with_tags(articles, tags)`: existing pairs become
      DELETED; no pair is added or removed. */
  function Dissociate(ledger: Ledger, keys: set<ArticleKey>, tags: set<TagId>): (r: Ledger)
    ensures r.Keys == ledger.Keys
    ensures forall p :: p in ledger && p.0 in keys && p.1 in tags ==> r[p] == Deleted
    ensures forall p :: p in ledger && !(p.0 in keys && p.1 in tags) ==> r[p] == ledger[p]
  {
    map p | p in ledger :: if p.0 in keys && p.1 in tags then Deleted else ledger[p]
  }

  /** `dissociate_article_with_tags_not_in_list(article, tags)`: every pair of
      the article whose tag is not kept becomes DELETED. */
  function DissociateNotInList(ledger: Ledger, k: ArticleKey, keep: set<TagId>): (r: Ledger)
    ensures r.Keys == ledger.Keys
    ensures forall t :: (k, t) in ledger && t !in keep ==> r[(k, t)] == Deleted
    ensures forall p :: p in ledger && (p.0 != k || p.1 in keep) ==> r[p] == ledger[p]
  {
    map p | p in ledger :: if p.0 == k && p.1 !in keep then Deleted else ledger[p]
  }

  // ---------------------------------------------------------------------
  // Properties

  /** After an association, every selected pair carries the new reason,
      except that without `readdDeleted` a DELETED pair stays DELETED. */
  lemma AssociateOutcome(ledger: Ledger, keys: set<ArticleKey>, tags: set<TagId>, reason: TaggingReason, readdDeleted: bool, k: ArticleKey, t: TagId)
    requires k in keys && t in tags
    ensures var r := Associate(ledger, keys, tags, reason, readdDeleted);
      && (k, t) in r
      && (readdDeleted || (k, t) !in ledger || ledger[(k, t)] != Deleted ==> r[(k, t)] == reason)
      && (!readdDeleted && (k, t) in ledger && ledger[(k, t)] == Deleted ==> r[(k, t)] == Deleted)
  {
  }

  /** A tag the user removed from an article is not brought back by a feed
      synchronisation, which associates without `readdDeleted`. */
  lemma DeletedSurvivesFeedSync(ledger: Ledger, keys: set<ArticleKey>, tags: set<TagId>, k: ArticleKey, t: TagId)
    requires (k, t) in ledger && ledger[(k, t)] == Deleted
    ensures t !in ActiveTagIds(Associate(ledger, keys, tags, FromFeed, false), k)
  {
  }

  /** Dissociating never drops a row: the pair stays with reason DELETED,
      and no longer counts as an active tag. */
  lemma DissociateOutcome(ledger: Ledger, keys: set<ArticleKey>, tags: set<TagId>, k: ArticleKey, t: TagId)
    requires k in keys && t in tags && (k, t) in ledger
    ensures var r := Dissociate(ledger, keys, tags);
      (k, t) in r && r[(k, t)] == Deleted && t !in ActiveTagIds(r, k)
  {
  }

  /** The tags of articles outside the selection are untouched by either
      operation. */
  lemma UnselectedArticlesUnchanged(ledger: Ledger, keys: set<ArticleKey>, add: set<TagId>, remove: set<TagId>, k: ArticleKey)
    requires k !in keys
    ensures var r := Dissociate(Associate(ledger, keys, add, AddedManually, true), keys, remove);
      && (forall t :: (k, t) in r <==> (k, t) in ledger)
      && (forall t :: (k, t) in r ==> r[(k, t)] == ledger[(k, t)])
  {
  }

  /** The replace the details view performs: after associating `tags` with
      `readdDeleted` and deleting every other association of `k`, the active
      tags of `k` are exactly `tags`, each ADDED_MANUALLY, every other pair
      of `k` is DELETED, and other articles are untouched. */
  lemma ReplaceOutcome(ledger: Ledger, k: ArticleKey, tags: set<TagId>)
    ensures var r := DissociateNotInList(Associate(ledger, {k}, tags, AddedManually, true), k, tags);
      && ActiveTagIds(r, k) == tags
      && (forall t :: t in tags ==> r[(k, t)] == AddedManually)
      && (forall t :: (k, t) in ledger && t !in tags ==> (k, t) in r && r[(k, t)] == Deleted)
      && (forall p :: p in ledger && p.0 != k ==> p in r && r[p] == ledger[p])
  {
    var a := Associate(ledger, {k}, tags, AddedManually, true);
    var r := DissociateNotInList(a, k, tags);
    forall t | t in tags
      ensures (k, t) in r && r[(k, t)] == AddedManually
    {
      assert (k, t) in a;
    }
    forall t
      ensures t in ActiveTagIds(r, k) <==> t in tags
    {
      if t in tags {
        assert (k, t) in a;
      }
    }
  }
}
