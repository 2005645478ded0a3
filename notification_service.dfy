/** The notification store: creating a notification, the per-user unread and
    full listings (newest first), marking one read, deleting one, and the
    unread count. */
module NotificationService {
  import opened Common
  import opened Seqs
  import opened Entities
  import opened Store

  /** Adds one unread notification for the user, stamped now. The action
      fields are set only by callers that attach a follow-up action. */
  method CreateNotification(db: Db, userId: string, subject: string, description: string,
                            actionType: Option<string>, actionPayload: Option<string>,
                            actionLabel: Option<string>, now: Ticks)
    returns (id: int)
    requires db.Valid()
    modifies db`notifications, db`nextNotificationId
    ensures db.Valid()
    ensures id == old(db.nextNotificationId) && db.nextNotificationId == id + 1
    ensures db.notifications == old(db.notifications) +
      [Notification(id, userId, subject, description, false, now, actionType, actionPayload, actionLabel)]
  {
    id := db.nextNotificationId;
    var n := Notification(id, userId, subject, description, false, now, actionType, actionPayload, actionLabel);
    KeysBelowAppend(db.notifications, NotificationKey, id, n);
    db.notifications := db.notifications + [n];
    db.nextNotificationId := id + 1;
  }

  function ForUser(userId: string): Notification -> bool
  {
    (n: Notification) => n.userId == userId
  }

  function UnreadFor(userId: string): Notification -> bool
  {
    (n: Notification) => n.userId == userId && !n.isRead
  }

  /** Sort key of OrderByDescending(CreatedAt). */
  function NewestFirst(n: Notification): int
  {
    -(n.createdAt as int)
  }

  /** GetUnreadNotificationsAsync: the user's unread notifications, newest first. */
  function UnreadNotifications(rows: seq<Notification>, userId: string): (r: seq<Notification>)
    ensures forall n :: n in r <==> n in rows && n.userId == userId && !n.isRead
    ensures forall i, j :: 0 <= i < j < |r| ==> r[i].createdAt >= r[j].createdAt
    ensures multiset(r) == multiset(Filter(rows, UnreadFor(userId)))
  {
    var f := Filter(rows, UnreadFor(userId));
    FilterMembers(rows, UnreadFor(userId));
    SortByMembers(f, NewestFirst);
    SortBy(f, NewestFirst)
  }

  /** GetAllNotificationsAsync: all of the user's notifications, newest first. */
  function AllNotifications(rows: seq<Notification>, userId: string): (r: seq<Notification>)
    ensures forall n :: n in r <==> n in rows && n.userId == userId
    ensures forall i, j :: 0 <= i < j < |r| ==> r[i].createdAt >= r[j].createdAt
    ensures multiset(r) == multiset(Filter(rows, ForUser(userId)))
  {
    var f := Filter(rows, ForUser(userId));
    FilterMembers(rows, ForUser(userId));
    SortByMembers(f, NewestFirst);
    SortBy(f, NewestFirst)
  }

  /** GetUnreadCountAsync: a count of the user's unread notifications. */
  function UnreadCount(rows: seq<Notification>, userId: string): (c: nat)
    ensures c == |UnreadNotifications(rows, userId)|
  {
    assert |UnreadNotifications(rows, userId)| == |Filter(rows, UnreadFor(userId))| by {
      assert |multiset(UnreadNotifications(rows, userId))| == |multiset(Filter(rows, UnreadFor(userId)))|;
    }
    CountIsFilterLength(rows, userId);
    Count(rows, userId)
  }

  function Count(rows: seq<Notification>, userId: string): nat
  {
    if rows == [] then 0
    else (if rows[0].userId == userId && !rows[0].isRead then 1 else 0) + Count(rows[1..], userId)
  }

  lemma {:induction false} CountIsFilterLength(rows: seq<Notification>, userId: string)
    ensures Count(rows, userId) == |Filter(rows, UnreadFor(userId))|
  {
    if rows != [] {
      CountIsFilterLength(rows[1..], userId);
    }
  }

  /** The table after MarkAsReadAsync(id): the row with that id is read, all
      else as it was. */
  function MarkedRead(rows: seq<Notification>, id: int): (r: seq<Notification>)
    ensures |r| == |rows|
    ensures forall i :: 0 <= i < |rows| ==> r[i].(isRead := rows[i].isRead) == rows[i]
    ensures forall i :: 0 <= i < |rows| ==> (r[i].isRead <==> rows[i].isRead || rows[i].id == id)
  {
    seq(|rows|, i requires 0 <= i < |rows| => if rows[i].id == id then rows[i].(isRead := true) else rows[i])
  }

  function OtherThan(id: int): Notification -> bool
  {
    (n: Notification) => n.id != id
  }

  /** The table after DeleteNotificationAsync(id). */
  function WithoutNotification(rows: seq<Notification>, id: int): (r: seq<Notification>)
    ensures forall n :: n in r <==> n in rows && n.id != id
  {
    FilterMembers(rows, OtherThan(id));
    Filter(rows, OtherThan(id))
  }

  method MarkAsRead(db: Db, id: int)
    requires db.Valid()
    modifies db`notifications
    ensures db.Valid()
    ensures db.notifications == MarkedRead(old(db.notifications), id)
  {
    var k := IndexOfKey(db.notifications, NotificationKey, id);
    ghost var s := db.notifications;
    if k >= 0 {
      db.notifications := db.notifications[k := db.notifications[k].(isRead := true)];
      assert forall i :: 0 <= i < |s| && i != k ==> s[i].id != id by {
        assert forall i :: 0 <= i < |s| && i != k ==> NotificationKey(s[i]) != NotificationKey(s[k]);
      }
      assert forall i :: 0 <= i < |s| ==> NotificationKey(db.notifications[i]) == NotificationKey(s[i]);
    }
    assert db.notifications == MarkedRead(s, id);
  }

  method DeleteNotification(db: Db, id: int)
    requires db.Valid()
    modifies db`notifications
    ensures db.Valid()
    ensures db.notifications == WithoutNotification(old(db.notifications), id)
  {
    var k := IndexOfKey(db.notifications, NotificationKey, id);
    var s := db.notifications;
    if k >= 0 {
      KeysBelowRemove(s, NotificationKey, db.nextNotificationId, k);
      forall i | 0 <= i < |s| ensures OtherThan(id)(s[i]) <==> i != k {
        if i != k {
          assert NotificationKey(s[i]) != NotificationKey(s[k]);
        }
      }
      FilterDropsOne(s, OtherThan(id), k);
      db.notifications := s[..k] + s[k + 1..];
    } else {
      FilterAll(s, OtherThan(id));
    }
  }

  /** Marking a notification read twice is the same as once. */
  lemma MarkAsReadIdempotent(rows: seq<Notification>, id: int)
    ensures MarkedRead(MarkedRead(rows, id), id) == MarkedRead(rows, id)
  {
  }

  /** Marking an unread notification of the user read lowers the user's
      unread count by one; marking any other id leaves it as it was. */
  lemma {:induction false} MarkAsReadCount(rows: seq<Notification>, id: int, userId: string)
    requires forall i, j :: 0 <= i < j < |rows| ==> rows[i].id != rows[j].id
    ensures var hit := exists i :: 0 <= i < |rows| && rows[i].id == id && rows[i].userId == userId && !rows[i].isRead;
            UnreadCount(MarkedRead(rows, id), userId) == UnreadCount(rows, userId) - (if hit then 1 else 0)
  {
    CountIsFilterLength(rows, userId);
    CountIsFilterLength(MarkedRead(rows, id), userId);
    MarkedReadCount(rows, id, userId);
  }

  lemma {:induction false} MarkedReadCount(rows: seq<Notification>, id: int, userId: string)
    requires forall i, j :: 0 <= i < j < |rows| ==> rows[i].id != rows[j].id
    ensures var hit := exists i :: 0 <= i < |rows| && rows[i].id == id && rows[i].userId == userId && !rows[i].isRead;
            Count(MarkedRead(rows, id), userId) == Count(rows, userId) - (if hit then 1 else 0)
  {
    if rows != [] {
      var m := MarkedRead(rows, id);
      assert m[1..] == MarkedRead(rows[1..], id);
      MarkedReadCount(rows[1..], id, userId);
      if rows[0].id == id {
        assert forall i :: 1 <= i < |rows| ==> rows[i].id != id;
        assert !exists i :: 0 <= i < |rows[1..]| && rows[1..][i].id == id;
      } else {
        var hit := exists i :: 0 <= i < |rows| && rows[i].id == id && rows[i].userId == userId && !rows[i].isRead;
        var hit' := exists i :: 0 <= i < |rows[1..]| && rows[1..][i].id == id && rows[1..][i].userId == userId && !rows[1..][i].isRead;
        assert hit == hit' by {
          if hit {
            var i :| 0 <= i < |rows| && rows[i].id == id && rows[i].userId == userId && !rows[i].isRead;
            assert rows[1..][i - 1] == rows[i];
          }
        }
      }
    }
  }
}
