/** The records of the reading app: articles, the incoming article data the
    fetchers produce, reading lists and the enumerations they are made of. */
module ReadingModel {
  import opened Common
  import opened Time

  type UserId = nat
  type TagId = nat
  type Link = string

  /** `ARTICLE_TITLE_MAX_LENGTH`: the length of the title column. */
  const ArticleTitleMaxLength: nat := 255

  datatype ArticleSourceType = Feed | Manual

  datatype ReadStatus = All | OnlyUnread | OnlyRead
  datatype FavoriteStatus = All | OnlyFavorite | OnlyNonFavorite
  datatype ForLaterStatus = All | OnlyForLater | OnlyNotForLater
  datatype ReadingTimeOperator = Unset | MoreThan | LessThan
  datatype TagOperator = All | Any
  datatype TagFilterType = Include | Exclude
  datatype OrderDirection = Asc | Desc

  datatype UpdateArticleAction =
    | DoNothing
    | MarkAsRead
    | MarkAsUnread
    | MarkAsFavorite
    | UnmarkAsFavorite
    | MarkAsForLater
    | UnmarkAsForLater
    | MarkAsOpened

  /** A stored article. `is_read` and `was_opened` are generated columns and
      are the predicates `IsRead` and `WasOpened` below. The `annotations`
      column is not part of this model. */
  datatype Article = Article(
    user: UserId,
    link: Link,
    title: string,
    slug: string,
    summary: string,
    content: string,
    readingTime: nat,
    authors: seq<string>,
    contributors: seq<string>,
    externalTags: seq<string>,
    previewPictureUrl: string,
    previewPictureAlt: string,
    externalArticleId: string,
    language: string,
    readAt: Option<Instant>,
    openedAt: Option<Instant>,
    isFavorite: bool,
    isForLater: bool,
    mainSourceType: ArticleSourceType,
    mainSourceTitle: string,
    publishedAt: Option<Instant>,
    updatedAt: Option<Instant>,
    objCreatedAt: Instant,
    objUpdatedAt: Instant)

  /** The generated column `is_read`: false exactly when `read_at` is null. */
  predicate IsRead(a: Article) {
    a.readAt.Some?
  }

  /** The generated column `was_opened`: false exactly when `opened_at` is null. */
  predicate WasOpened(a: Article) {
    a.openedAt.Some?
  }

  /** The width of the `link` and `preview_picture_url` columns. */
  const ArticleLinkMaxLength: nat := 1024

  /** The largest value of a `PositiveIntegerField`, a PostgreSQL `integer`. */
  const MaxPositiveInteger: nat := 0x7FFF_FFFF

  /** The row fits the bounded columns of the article table: the title and
      slug in `varchar(255)`, the link and picture URL in `varchar(1024)`
      and the reading time in `integer`. PostgreSQL rejects a row that does
      not fit with a `DataError`. */
  predicate FitsColumns(a: Article) {
    && |a.title| <= ArticleTitleMaxLength
    && |a.slug| <= ArticleTitleMaxLength
    && |a.link| <= ArticleLinkMaxLength
    && |a.previewPictureUrl| <= ArticleLinkMaxLength
    && a.readingTime <= MaxPositiveInteger
  }

  /** The database error a write raises when a value does not fit its
      column; the surrounding transaction then rolls back. */
  datatype DbError = DataError

  /** Articles are unique per (user, link). */
  datatype ArticleKey = ArticleKey(user: UserId, link: Link)

  function KeyOf(a: Article): ArticleKey {
    ArticleKey(a.user, a.link)
  }

  /** The article table, keyed by (user, link). */
  type Articles = map<ArticleKey, Article>

  /** Every stored article sits under its own (user, link). */
  ghost predicate KeysConsistent(m: Articles) {
    forall k :: k in m ==> KeyOf(m[k]) == k
  }

  /** Every stored row fits its columns. */
  predicate AllFit(m: Articles) {
    forall k | k in m :: FitsColumns(m[k])
  }

  /** What a fetcher or an import hands over for one article. */
  datatype ArticleData = ArticleData(
    externalArticleId: string,
    sourceTitle: string,
    title: string,
    summary: string,
    content: string,
    authors: seq<string>,
    contributors: seq<string>,
    tags: seq<string>,
    link: Link,
    previewPictureUrl: string,
    previewPictureAlt: string,
    publishedAt: Option<Instant>,
    updatedAt: Option<Instant>,
    language: string,
    readAt: Option<Instant>,
    isFavorite: bool)

  datatype ReadingListTag = ReadingListTag(tag: TagId, filterType: TagFilterType)

  /** A reading list of the reading app, with its `reading_list_tags`. */
  datatype ReadingList = ReadingList(
    user: UserId,
    slug: string,
    readStatus: ReadStatus,
    favoriteStatus: FavoriteStatus,
    forLaterStatus: ForLaterStatus,
    maxAgeValue: nat,
    maxAgeUnit: AgeUnit,
    readingTime: nat,
    readingTimeOperator: ReadingTimeOperator,
    includeTagOperator: TagOperator,
    excludeTagOperator: TagOperator,
    tags: seq<ReadingListTag>,
    orderDirection: OrderDirection)
}
