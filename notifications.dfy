/** The notifications of the users app. A notification is read once
    `read_at` is set; `is_read` is the column generated from it. Marking
    selects the user's notifications, narrowed to one id when an id is
    given, and overwrites `read_at` on every selected row. */
module Notifications {
  import opened Common
  import opened Time

  type NotificationId = int
  type UserId = nat

  datatype Notification = Notification(
    id: NotificationId,
    title: string,
    content: string,
    readAt: Option<Instant>,
    user: UserId,
    createdAt: Instant,
    updatedAt: Instant)

  type Rows = map<NotificationId, Notification>

  /** The generated column `is_read`: true exactly when `read_at` is set. */
  predicate IsRead(n: Notification) {
    n.readAt.Some?
  }

  /** The rows `mark_as_read` and `mark_as_unread` act on: the user's
      notifications, narrowed to `id` only when `id` is truthy, so that a
      missing id and the id 0 both select all of them. */
  predicate Selected(n: Notification, user: UserId, id: Option<int>) {
    n.user == user && (id.None? || id.value == 0 || n.id == id.value)
  }

  /** `has_unread`: some notification of the user has no `read_at`. */
  predicate HasUnread(rows: Rows, user: UserId) {
    exists k :: k in rows && rows[k].user == user && !IsRead(rows[k])
  }

  ghost predicate IdsConsistent(rows: Rows) {
    forall k :: k in rows ==> rows[k].id == k
  }

  /** `qs.update(read_at=...)` on the selected rows. A queryset update
      writes only the named column, so `updated_at` is left as it was. */
  function SetReadAt(rows: Rows, user: UserId, id: Option<int>, readAt: Option<Instant>): (r: Rows)
    ensures r.Keys == rows.Keys
    ensures forall k :: k in rows && Selected(rows[k], user, id) ==>
      r[k].readAt == readAt && r[k].(readAt := rows[k].readAt) == rows[k]
    ensures forall k :: k in rows && !Selected(rows[k], user, id) ==> r[k] == rows[k]
  {
    map k | k in rows :: if Selected(rows[k], user, id) then rows[k].(readAt := readAt) else rows[k]
  }

  class NotificationTable {
    var rows: Rows

    ghost predicate Valid()
      reads this
    {
      IdsConsistent(rows)
    }

    constructor (initial: Rows)
      requires IdsConsistent(initial)
      ensures Valid() && rows == initial
    {
      rows := initial;
    }

    /** `mark_as_read(user, notification_id)`. */
    method MarkAsRead(user: UserId, id: Option<int>, now: Instant)
      requires Valid()
      modifies this
      ensures Valid()
      ensures rows == SetReadAt(old(rows), user, id, Some(now))
    {
      rows := SetReadAt(rows, user, id, Some(now));
    }

    /** `mark_as_unread(user, notification_id)`. */
    method MarkAsUnread(user: UserId, id: Option<int>)
      requires Valid()
      modifies this
      ensures Valid()
      ensures rows == SetReadAt(old(rows), user, id, None)
    {
      rows := SetReadAt(rows, user, id, None);
    }
  }

  // ---------------------------------------------------------------------
  // Properties

  /** The id 0 is falsy: it selects every notification of the user, as no
      id does. */
  lemma ZeroIdMeansAll(rows: Rows, user: UserId, readAt: Option<Instant>)
    ensures SetReadAt(rows, user, Some(0), readAt) == SetReadAt(rows, user, None, readAt)
  {
  }

  /** Marking everything read leaves the user nothing unread; marking
      everything unread leaves something unread exactly when the user has a
      notification at all. */
  lemma MarkAllOutcome(rows: Rows, user: UserId, now: Instant)
    ensures !HasUnread(SetReadAt(rows, user, None, Some(now)), user)
    ensures HasUnread(SetReadAt(rows, user, None, None), user) <==> exists k :: k in rows && rows[k].user == user
  {
    var r := SetReadAt(rows, user, None, None);
    if exists k :: k in rows && rows[k].user == user {
      var k :| k in rows && rows[k].user == user;
      assert r[k].user == user && !IsRead(r[k]);
    }
  }

  /** With a truthy id, at most one row can change: the user's row with
      that id. */
  lemma TruthyIdSelectsOne(rows: Rows, user: UserId, id: int, readAt: Option<Instant>, k: NotificationId)
    requires IdsConsistent(rows)
    requires id != 0
    requires k in rows && k != id
    ensures SetReadAt(rows, user, Some(id), readAt)[k] == rows[k]
  {
  }

  /** Another user's notifications keep their read state whatever a user
      marks, and so does that user's `has_unread`. */
  lemma OtherUsersUntouched(rows: Rows, user: UserId, other: UserId, id: Option<int>, readAt: Option<Instant>)
    requires other != user
    ensures HasUnread(SetReadAt(rows, user, id, readAt), other) <==> HasUnread(rows, other)
  {
    var r := SetReadAt(rows, user, id, readAt);
    if HasUnread(rows, other) {
      var k :| k in rows && rows[k].user == other && !IsRead(rows[k]);
      assert r[k] == rows[k];
    }
    if HasUnread(r, other) {
      var k :| k in r && r[k].user == other && !IsRead(r[k]);
      assert r[k] == rows[k];
    }
  }

  /** Marking read sets `read_at` to `now` even on a selected notification
      that was already read. */
  lemma MarkReadOverwrites(rows: Rows, user: UserId, id: Option<int>, now: Instant, k: NotificationId)
    requires k in rows && Selected(rows[k], user, id) && IsRead(rows[k])
    ensures SetReadAt(rows, user, id, Some(now))[k].readAt == Some(now)
  {
  }
}
