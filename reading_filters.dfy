/** What a reading list selects and in which order: the clauses
    `_build_filters_from_reading_list` conjoins, their evaluation against an
    article and its active tags, the declarative reading of the same
    selection, and the `default_order_by` key. */
module ReadingFilters {
  import opened Common
  import opened Time
  import opened Sorting
  import opened ReadingModel

  /** The array lookups `_get_reading_list_tags_sql_operator` chooses. */
  datatype ArrayLookup = Contains | Overlap

  function SqlOperator(op: TagOperator): (r: ArrayLookup)
    ensures r == Contains <==> op == TagOperator.All
  {
    match op
    case All => Contains
    case Any => Overlap
  }

  /** One conjunct of the query. */
  datatype Clause =
    | IsReadIs(isRead: bool)
    | IsFavoriteIs(isFavorite: bool)
    | IsForLaterIs(isForLater: bool)
    | PublishedAfter(threshold: Instant)
    | ReadingTimeAtLeast(minimum: nat)
    | ReadingTimeAtMost(maximum: nat)
    | TagIds(lookup: ArrayLookup, ids: seq<TagId>, negated: bool)

  /** `alias_tag_ids_for_article__contains` / `__overlap` on the article's
      active tag ids. */
  predicate ArrayLookupHolds(lookup: ArrayLookup, ids: seq<TagId>, active: set<TagId>) {
    match lookup
    case Contains => forall i :: 0 <= i < |ids| ==> ids[i] in active
    case Overlap => exists i :: 0 <= i < |ids| && ids[i] in active
  }

  /** SQL evaluation of one clause. A comparison with a null `published_at`
      is not true, so such an article fails an age clause. */
  predicate Holds(c: Clause, a: Article, active: set<TagId>) {
    match c
    case IsReadIs(b) => IsRead(a) == b
    case IsFavoriteIs(b) => a.isFavorite == b
    case IsForLaterIs(b) => a.isForLater == b
    case PublishedAfter(t) => a.publishedAt.Some? && a.publishedAt.value > t
    case ReadingTimeAtLeast(n) => a.readingTime >= n
    case ReadingTimeAtMost(n) => a.readingTime <= n
    case TagIds(lookup, ids, negated) => ArrayLookupHolds(lookup, ids, active) != negated
  }

  predicate HoldsAll(cs: seq<Clause>, a: Article, active: set<TagId>) {
    forall i :: 0 <= i < |cs| ==> Holds(cs[i], a, active)
  }

  /** The tag ids of the links of type `ft`, in link order. */
  function IdsOfType(links: seq<ReadingListTag>, ft: TagFilterType): (r: seq<TagId>)
    ensures forall t :: t in r <==> exists i :: 0 <= i < |links| && links[i] == ReadingListTag(t, ft)
  {
    if |links| == 0 then []
    else
      var rest := IdsOfType(links[..|links| - 1], ft);
      assert forall i :: 0 <= i < |links| - 1 ==> links[..|links| - 1][i] == links[i];
      if links[|links| - 1].filterType == ft then rest + [links[|links| - 1].tag] else rest
  }

  /** `_get_tags_filters`: the loop that splits the list's tag links into the
      ids to include and the ids to exclude. */
  method CollectTagFilters(links: seq<ReadingListTag>) returns (toInclude: seq<TagId>, toExclude: seq<TagId>)
    ensures toInclude == IdsOfType(links, Include)
    ensures toExclude == IdsOfType(links, Exclude)
  {
    toInclude, toExclude := [], [];
    var i := 0;
    while i < |links|
      invariant 0 <= i <= |links|
      invariant toInclude == IdsOfType(links[..i], Include)
      invariant toExclude == IdsOfType(links[..i], Exclude)
    {
      assert links[..i + 1][..i] == links[..i];
      match links[i].filterType {
        case Include => toInclude := toInclude + [links[i].tag];
        case Exclude => toExclude := toExclude + [links[i].tag];
      }
      i := i + 1;
    }
    assert links[..i] == links;
  }

  function TagFilters(rl: ReadingList): seq<Clause> {
    var toInclude := IdsOfType(rl.tags, Include);
    var toExclude := IdsOfType(rl.tags, Exclude);
    (if |toInclude| > 0 then [TagIds(SqlOperator(rl.includeTagOperator), toInclude, false)] else [])
    + (if |toExclude| > 0 then [TagIds(SqlOperator(rl.excludeTagOperator), toExclude, true)] else [])
  }

  function ReadClauses(rl: ReadingList): seq<Clause> {
    match rl.readStatus
    case OnlyRead => [IsReadIs(true)]
    case OnlyUnread => [IsReadIs(false)]
    case All => []
  }

  function FavoriteClauses(rl: ReadingList): seq<Clause> {
    match rl.favoriteStatus
    case OnlyFavorite => [IsFavoriteIs(true)]
    case OnlyNonFavorite => [IsFavoriteIs(false)]
    case All => []
  }

  function ForLaterClauses(rl: ReadingList): seq<Clause> {
    match rl.forLaterStatus
    case OnlyForLater => [IsForLaterIs(true)]
    case OnlyNotForLater => [IsForLaterIs(false)]
    case All => []
  }

  function AgeClauses(rl: ReadingList, now: DateTime): seq<Clause>
    requires ValidDateTime(now)
  {
    if rl.maxAgeUnit != AgeUnit.Unset then [PublishedAfter(NowMinus(now, rl.maxAgeUnit, rl.maxAgeValue))] else []
  }

  function ReadingTimeClauses(rl: ReadingList): seq<Clause> {
    match rl.readingTimeOperator
    case Unset => []
    case MoreThan => [ReadingTimeAtLeast(rl.readingTime)]
    case LessThan => [ReadingTimeAtMost(rl.readingTime)]
  }

  /** `_build_filters_from_reading_list` at time `now`: no clause at all
      exactly when the list sets no criterion and links no tag. */
  function BuildFilters(rl: ReadingList, now: DateTime): (cs: seq<Clause>)
    requires ValidDateTime(now)
    ensures cs == [] <==>
      && rl.readStatus == ReadStatus.All && rl.favoriteStatus == FavoriteStatus.All
      && rl.forLaterStatus == ForLaterStatus.All && rl.maxAgeUnit == AgeUnit.Unset
      && rl.readingTimeOperator == ReadingTimeOperator.Unset && rl.tags == []
  {
    assert rl.tags != [] ==> rl.tags[0].tag in IdsOfType(rl.tags, rl.tags[0].filterType);
    ReadClauses(rl) + FavoriteClauses(rl) + ForLaterClauses(rl) + AgeClauses(rl, now)
    + ReadingTimeClauses(rl) + TagFilters(rl)
  }

  // ---------------------------------------------------------------------
  // The declarative reading of a reading list.

  ghost function Included(rl: ReadingList): set<TagId> {
    set i | 0 <= i < |rl.tags| && rl.tags[i].filterType == Include :: rl.tags[i].tag
  }

  ghost function Excluded(rl: ReadingList): set<TagId> {
    set i | 0 <= i < |rl.tags| && rl.tags[i].filterType == Exclude :: rl.tags[i].tag
  }

  ghost predicate TagTest(op: TagOperator, ids: set<TagId>, active: set<TagId>) {
    match op
    case All => ids <= active
    case Any => ids * active != {}
  }

  ghost predicate StatusMatches(rl: ReadingList, a: Article) {
    && (rl.readStatus == ReadStatus.OnlyRead ==> IsRead(a))
    && (rl.readStatus == ReadStatus.OnlyUnread ==> !IsRead(a))
    && (rl.favoriteStatus == FavoriteStatus.OnlyFavorite ==> a.isFavorite)
    && (rl.favoriteStatus == FavoriteStatus.OnlyNonFavorite ==> !a.isFavorite)
    && (rl.forLaterStatus == ForLaterStatus.OnlyForLater ==> a.isForLater)
    && (rl.forLaterStatus == ForLaterStatus.OnlyNotForLater ==> !a.isForLater)
  }

  ghost predicate AgeMatches(rl: ReadingList, a: Article, now: DateTime)
    requires ValidDateTime(now)
  {
    rl.maxAgeUnit != AgeUnit.Unset ==>
      a.publishedAt.Some? && a.publishedAt.value > NowMinus(now, rl.maxAgeUnit, rl.maxAgeValue)
  }

  ghost predicate ReadingTimeMatches(rl: ReadingList, a: Article) {
    && (rl.readingTimeOperator == MoreThan ==> a.readingTime >= rl.readingTime)
    && (rl.readingTimeOperator == LessThan ==> a.readingTime <= rl.readingTime)
  }

  /** An empty include (exclude) set adds no condition. */
  ghost predicate TagsMatch(rl: ReadingList, active: set<TagId>) {
    && (Included(rl) != {} ==> TagTest(rl.includeTagOperator, Included(rl), active))
    && (Excluded(rl) != {} ==> !TagTest(rl.excludeTagOperator, Excluded(rl), active))
  }

  /** An article with active tags `active` belongs to reading list `rl` at
      time `now`. */
  ghost predicate Matches(rl: ReadingList, a: Article, active: set<TagId>, now: DateTime)
    requires ValidDateTime(now)
  {
    StatusMatches(rl, a) && AgeMatches(rl, a, now) && ReadingTimeMatches(rl, a) && TagsMatch(rl, active)
  }

  // ---------------------------------------------------------------------
  // The compiled query selects exactly what the reading list describes.

  lemma IncludedAgree(rl: ReadingList)
    ensures forall t :: t in IdsOfType(rl.tags, Include) <==> t in Included(rl)
  {
    forall t ensures t in IdsOfType(rl.tags, Include) <==> t in Included(rl) {
      if t in IdsOfType(rl.tags, Include) {
        var i :| 0 <= i < |rl.tags| && rl.tags[i] == ReadingListTag(t, Include);
        assert rl.tags[i].filterType == Include;
      }
      if t in Included(rl) {
        var i :| 0 <= i < |rl.tags| && rl.tags[i].filterType == Include && rl.tags[i].tag == t;
        assert rl.tags[i] == ReadingListTag(t, Include);
      }
    }
  }

  lemma ExcludedAgree(rl: ReadingList)
    ensures forall t :: t in IdsOfType(rl.tags, Exclude) <==> t in Excluded(rl)
  {
    forall t ensures t in IdsOfType(rl.tags, Exclude) <==> t in Excluded(rl) {
      if t in IdsOfType(rl.tags, Exclude) {
        var i :| 0 <= i < |rl.tags| && rl.tags[i] == ReadingListTag(t, Exclude);
        assert rl.tags[i].filterType == Exclude;
      }
      if t in Excluded(rl) {
        var i :| 0 <= i < |rl.tags| && rl.tags[i].filterType == Exclude && rl.tags[i].tag == t;
        assert rl.tags[i] == ReadingListTag(t, Exclude);
      }
    }
  }

  lemma LookupIsTagTest(op: TagOperator, ids: seq<TagId>, s: set<TagId>, active: set<TagId>)
    requires forall t :: t in ids <==> t in s
    ensures ArrayLookupHolds(SqlOperator(op), ids, active) <==> TagTest(op, s, active)
  {
    if op == TagOperator.All {
      if ArrayLookupHolds(Contains, ids, active) {
        forall t | t in s ensures t in active {
          var i :| 0 <= i < |ids| && ids[i] == t;
        }
      }
      if s <= active {
        forall i | 0 <= i < |ids| ensures ids[i] in active {
          assert ids[i] in s;
        }
      }
    } else {
      if TagTest(op, s, active) {
        var t :| t in s * active;
        var i :| 0 <= i < |ids| && ids[i] == t;
      }
      if ArrayLookupHolds(Overlap, ids, active) {
        var i :| 0 <= i < |ids| && ids[i] in active;
        assert ids[i] in s * active;
      }
    }
  }

  lemma HoldsAllConcat(xs: seq<Clause>, ys: seq<Clause>, a: Article, active: set<TagId>)
    ensures HoldsAll(xs + ys, a, active) <==> HoldsAll(xs, a, active) && HoldsAll(ys, a, active)
  {
    if HoldsAll(xs, a, active) && HoldsAll(ys, a, active) {
      forall i | 0 <= i < |xs + ys| ensures Holds((xs + ys)[i], a, active) {
        if i >= |xs| {
          assert (xs + ys)[i] == ys[i - |xs|];
        }
      }
    }
    if HoldsAll(xs + ys, a, active) {
      forall i | 0 <= i < |ys| ensures Holds(ys[i], a, active) {
        assert (xs + ys)[|xs| + i] == ys[i];
      }
      forall i | 0 <= i < |xs| ensures Holds(xs[i], a, active) {
        assert (xs + ys)[i] == xs[i];
      }
    }
  }

  lemma TagFiltersAgree(rl: ReadingList, a: Article, active: set<TagId>)
    ensures HoldsAll(TagFilters(rl), a, active) <==> TagsMatch(rl, active)
  {
    var toInclude := IdsOfType(rl.tags, Include);
    var toExclude := IdsOfType(rl.tags, Exclude);
    IncludedAgree(rl);
    ExcludedAgree(rl);
    assert |toInclude| > 0 <==> Included(rl) != {} by {
      if |toInclude| > 0 { assert toInclude[0] in Included(rl); }
      if Included(rl) != {} { var t :| t in Included(rl); assert t in toInclude; }
    }
    assert |toExclude| > 0 <==> Excluded(rl) != {} by {
      if |toExclude| > 0 { assert toExclude[0] in Excluded(rl); }
      if Excluded(rl) != {} { var t :| t in Excluded(rl); assert t in toExclude; }
    }
    LookupIsTagTest(rl.includeTagOperator, toInclude, Included(rl), active);
    LookupIsTagTest(rl.excludeTagOperator, toExclude, Excluded(rl), active);
    var inc := if |toInclude| > 0 then [TagIds(SqlOperator(rl.includeTagOperator), toInclude, false)] else [];
    var exc := if |toExclude| > 0 then [TagIds(SqlOperator(rl.excludeTagOperator), toExclude, true)] else [];
    assert TagFilters(rl) == inc + exc;
    HoldsAllConcat(inc, exc, a, active);
    if |toInclude| > 0 {
      assert HoldsAll(inc, a, active) <==> Holds(inc[0], a, active);
    }
    if |toExclude| > 0 {
      assert HoldsAll(exc, a, active) <==> Holds(exc[0], a, active);
    }
  }

  lemma StatusClausesAgree(rl: ReadingList, a: Article, active: set<TagId>)
    ensures HoldsAll(ReadClauses(rl) + FavoriteClauses(rl) + ForLaterClauses(rl), a, active) <==> StatusMatches(rl, a)
  {
    HoldsAllSingleton(a, active);
    HoldsAllConcat(ReadClauses(rl) + FavoriteClauses(rl), ForLaterClauses(rl), a, active);
    HoldsAllConcat(ReadClauses(rl), FavoriteClauses(rl), a, active);
  }

  lemma RangeClausesAgree(rl: ReadingList, a: Article, active: set<TagId>, now: DateTime)
    requires ValidDateTime(now)
    ensures HoldsAll(AgeClauses(rl, now) + ReadingTimeClauses(rl), a, active) <==>
      AgeMatches(rl, a, now) && ReadingTimeMatches(rl, a)
  {
    HoldsAllSingleton(a, active);
    HoldsAllConcat(AgeClauses(rl, now), ReadingTimeClauses(rl), a, active);
  }

  /** The clauses hold of an article exactly when it matches the list. */
  lemma FiltersAgree(rl: ReadingList, a: Article, active: set<TagId>, now: DateTime)
    requires ValidDateTime(now)
    ensures HoldsAll(BuildFilters(rl, now), a, active) <==> Matches(rl, a, active, now)
  {
    var status := ReadClauses(rl) + FavoriteClauses(rl) + ForLaterClauses(rl);
    var range := AgeClauses(rl, now) + ReadingTimeClauses(rl);
    assert BuildFilters(rl, now) == status + range + TagFilters(rl);
    HoldsAllConcat(status + range, TagFilters(rl), a, active);
    HoldsAllConcat(status, range, a, active);
    StatusClausesAgree(rl, a, active);
    RangeClausesAgree(rl, a, active, now);
    TagFiltersAgree(rl, a, active);
  }

  lemma HoldsAllSingleton(a: Article, active: set<TagId>)
    ensures forall c :: HoldsAll([c], a, active) <==> Holds(c, a, active)
    ensures HoldsAll([], a, active)
  {
    forall c ensures HoldsAll([c], a, active) <==> Holds(c, a, active) {
      assert [c][0] == c;
    }
  }

  /** A status set to ALL, an unset unit or operator, and empty tag lists add
      no clause: such a list keeps every article. */
  lemma UnconstrainedListKeepsEverything(rl: ReadingList, a: Article, active: set<TagId>, now: DateTime)
    requires ValidDateTime(now)
    requires rl.readStatus == ReadStatus.All && rl.favoriteStatus == FavoriteStatus.All
    requires rl.forLaterStatus == ForLaterStatus.All
    requires rl.maxAgeUnit == AgeUnit.Unset && rl.readingTimeOperator == ReadingTimeOperator.Unset && rl.tags == []
    ensures BuildFilters(rl, now) == []
    ensures Matches(rl, a, active, now)
  {
    assert Included(rl) == {} && Excluded(rl) == {};
  }

  /** An article without active tags fails any toInclude clause and passes any
      toExclude clause. */
  lemma NoActiveTags(rl: ReadingList)
    ensures TagsMatch(rl, {}) <==> Included(rl) == {}
  {
  }

  /** Reading-time bounds are inclusive on both sides. */
  lemma ReadingTimeBoundsInclusive(rl: ReadingList, a: Article)
    requires a.readingTime == rl.readingTime
    ensures ReadingTimeMatches(rl, a)
  {
  }

  /** One hour window at 2024-03-19 21:08: an article published two hours
      earlier is left out, one published thirty minutes earlier is kept, and
      one without a publication date is left out. */
  lemma OneHourWindow(rl: ReadingList, a: Article)
    requires rl.maxAgeUnit == Hours && rl.maxAgeValue == 1
    ensures var now := DateTime(2024, 3, 19, 21, 8, 0);
      && (a.publishedAt == Some(ToInstant(DateTime(2024, 3, 19, 19, 8, 0))) ==> !AgeMatches(rl, a, now))
      && (a.publishedAt == Some(ToInstant(DateTime(2024, 3, 19, 20, 38, 0))) ==> AgeMatches(rl, a, now))
      && (a.publishedAt == None ==> !AgeMatches(rl, a, now))
  {
  }

  /** Include with ALL needs every listed tag; toExclude with ANY rejects an
      article carrying any listed tag. */
  lemma TagOperatorExamples(rl: ReadingList, t1: TagId, t2: TagId, active: set<TagId>)
    requires t1 != t2
    ensures rl.tags == [ReadingListTag(t1, Include), ReadingListTag(t2, Include)] && rl.includeTagOperator == TagOperator.All ==>
      (TagsMatch(rl, active) <==> t1 in active && t2 in active)
    ensures rl.tags == [ReadingListTag(t1, Exclude)] && rl.excludeTagOperator == TagOperator.Any ==>
      (TagsMatch(rl, active) <==> t1 !in active)
  {
    if rl.tags == [ReadingListTag(t1, Include), ReadingListTag(t2, Include)] {
      assert rl.tags[0].tag == t1 && rl.tags[1].tag == t2;
      assert Included(rl) == {t1, t2};
      assert Excluded(rl) == {};
    }
    if rl.tags == [ReadingListTag(t1, Exclude)] {
      assert rl.tags[0].tag == t1;
      assert Excluded(rl) == {t1};
      assert Included(rl) == {};
    }
  }

  // ---------------------------------------------------------------------
  // Ordering

  /** `alias_date_field_order`: coalesce(updated_at, published_at). */
  function SortKey(a: Article): Option<Instant> {
    if a.updatedAt.Some? then a.updatedAt else a.publishedAt
  }

  /** The order `default_order_by(direction)` puts on sort keys: by value in
      the given direction, nulls last. */
  predicate KeyLe(dir: OrderDirection, x: Option<Instant>, y: Option<Instant>) {
    match (x, y)
    case (None, _) => y.None?
    case (Some(_), None) => true
    case (Some(u), Some(v)) => if dir == Desc then u >= v else u <= v
  }

  function ArticleOrder(dir: OrderDirection): (Article, Article) -> bool {
    (a: Article, b: Article) => KeyLe(dir, SortKey(a), SortKey(b))
  }

  lemma ArticleOrderIsTotalPreorder(dir: OrderDirection)
    ensures IsTotalPreorder(ArticleOrder(dir))
  {
  }

  /** In a listing sorted this way, articles without either date come after
      every article that has one. */
  lemma NullsLast(dir: OrderDirection, s: seq<Article>, i: int, j: int)
    requires SortedBy(s, ArticleOrder(dir))
    requires 0 <= i < j < |s|
    requires SortKey(s[i]).None?
    ensures SortKey(s[j]).None?
  {
    assert ArticleOrder(dir)(s[i], s[j]);
  }

  /** Descending order puts the more recently updated (or, without update
      date, published) article first. */
  lemma DescendingPutsNewestFirst(dir: OrderDirection, s: seq<Article>, i: int, j: int)
    requires dir == Desc
    requires SortedBy(s, ArticleOrder(dir))
    requires 0 <= i < j < |s|
    requires SortKey(s[i]).Some? && SortKey(s[j]).Some?
    ensures SortKey(s[i]).value >= SortKey(s[j]).value
  {
    assert ArticleOrder(dir)(s[i], s[j]);
  }
}
