/**
 * A user's notifications: marking one or all as read, and the page arithmetic of
 * the notification listing (newest first, `skip = (page - 1) * limit`, `take = limit`,
 * `pages = ceil(total / limit)`).
 */
module Notifications {
  import opened Wrappers
  import Ordering

  type UserId = nat
  type NotificationId = nat

  datatype Notification = Notification(userId: UserId, isRead: bool, createdAt: int)

  /** The ids of `user`'s notifications. */
  function Owned(ns: map<NotificationId, Notification>, user: UserId): set<NotificationId>
  {
    set k | k in ns && ns[k].userId == user
  }

  /** The ids of `user`'s unread notifications. */
  function Unread(ns: map<NotificationId, Notification>, user: UserId): set<NotificationId>
  {
    set k | k in ns && ns[k].userId == user && !ns[k].isRead
  }

  // ---------------------------------------------------------------------------
  // Marking as read

  /**
   * The update of `markNotificationAsRead`, filtered by both id and owner: the new
   * rows and the number of rows matched.
   */
  function MarkedRead(ns: map<NotificationId, Notification>, user: UserId, id: NotificationId)
    : (map<NotificationId, Notification>, nat)
  {
    if id in ns && ns[id].userId == user then (ns[id := ns[id].(isRead := true)], 1) else (ns, 0)
  }

  /** The update of `markAllNotificationsAsRead`: every unread row of `user` becomes read. */
  function AllMarkedRead(ns: map<NotificationId, Notification>, user: UserId): (r: map<NotificationId, Notification>)
    ensures r.Keys == ns.Keys
    ensures forall k :: k in ns && ns[k].userId == user ==> r[k] == ns[k].(isRead := true)
    ensures forall k :: k in ns && ns[k].userId != user ==> r[k] == ns[k]
  {
    map k | k in ns :: if ns[k].userId == user && !ns[k].isRead then ns[k].(isRead := true) else ns[k]
  }

  /**
   * Marking one notification touches no other row and no other user's row: a user
   * cannot mark someone else's notification, which is answered with 404.
   */
  lemma MarkedReadMeans(ns: map<NotificationId, Notification>, user: UserId, id: NotificationId)
    ensures var (r, count) := MarkedRead(ns, user, id);
      && (count == 1 <==> id in ns && ns[id].userId == user)
      && r.Keys == ns.Keys
      && (forall k :: k in ns && k != id ==> r[k] == ns[k])
      && (count == 1 ==> r[id].isRead && r[id].userId == ns[id].userId && r[id].createdAt == ns[id].createdAt)
      && (count == 0 ==> r == ns)
      && Unread(r, user) == Unread(ns, user) - {id}
      && (forall u :: u != user ==> Unread(r, u) == Unread(ns, u))
  {
    var (r, count) := MarkedRead(ns, user, id);
    assert Unread(r, user) == Unread(ns, user) - {id};
    forall u | u != user ensures Unread(r, u) == Unread(ns, u) {
    }
  }

  /** After marking all, the user has nothing unread, other users are untouched, and doing it again changes nothing. */
  lemma AllMarkedReadMeans(ns: map<NotificationId, Notification>, user: UserId)
    ensures Unread(AllMarkedRead(ns, user), user) == {}
    ensures forall u :: u != user ==> Unread(AllMarkedRead(ns, user), u) == Unread(ns, u)
    ensures AllMarkedRead(AllMarkedRead(ns, user), user) == AllMarkedRead(ns, user)
  {
    var r := AllMarkedRead(ns, user);
    forall u | u != user ensures Unread(r, u) == Unread(ns, u) {
    }
    var rr := AllMarkedRead(r, user);
    assert forall k :: k in r ==> rr[k] == r[k];
  }

  /** Marking one notification first makes no difference to the result of marking all. */
  lemma MarkOneThenAll(ns: map<NotificationId, Notification>, user: UserId, id: NotificationId)
    ensures AllMarkedRead(MarkedRead(ns, user, id).0, user) == AllMarkedRead(ns, user)
  {
    var r := MarkedRead(ns, user, id).0;
    assert forall k :: k in ns ==> AllMarkedRead(r, user)[k] == AllMarkedRead(ns, user)[k];
  }

  /** The notification table, updated in place by the two handlers. */
  class Inbox {
    var notifications: map<NotificationId, Notification>

    constructor (notifications: map<NotificationId, Notification>)
      ensures this.notifications == notifications
    {
      this.notifications := notifications;
    }

    /** `markNotificationAsRead`: 404 when no notification of `user` has this id. */
    method MarkNotificationAsRead(user: UserId, id: NotificationId) returns (r: Result<(), int>)
      modifies this
      ensures notifications == MarkedRead(old(notifications), user, id).0
      ensures r == if MarkedRead(old(notifications), user, id).1 == 0 then Err(404) else Ok(())
      ensures r.Ok? <==> id in old(notifications) && old(notifications)[id].userId == user
    {
      var count := 0;
      if id in notifications && notifications[id].userId == user {
        notifications := notifications[id := notifications[id].(isRead := true)];
        count := 1;
      }
      if count == 0 {
        return Err(404);
      }
      return Ok(());
    }

    /** `markAllNotificationsAsRead`: always succeeds, even when nothing was unread. */
    method MarkAllNotificationsAsRead(user: UserId)
      modifies this
      ensures notifications == AllMarkedRead(old(notifications), user)
      ensures Unread(notifications, user) == {}
    {
      notifications := map k | k in notifications ::
        if notifications[k].userId == user && !notifications[k].isRead then notifications[k].(isRead := true)
        else notifications[k];
      AllMarkedReadMeans(old(notifications), user);
    }
  }

  // ---------------------------------------------------------------------------
  // The notification listing

  /** `Math.ceil(a / b)` for a row count `a` and a non-zero integer `b`. */
  function CeilDiv(a: nat, b: int): (r: int)
    requires b != 0
    ensures b > 0 ==> (r - 1) * b < a <= r * b
    ensures b < 0 ==> r * b <= a < (r - 1) * b
  {
    if b > 0 then (a + b - 1) / b else -(a / -b)
  }

  /** The `pages` field: `ceil(total / 0)` is `Infinity` or `NaN`, which JSON sends as null. */
  datatype PageCount = Pages(n: int) | Null

  datatype Listing = Listing(items: seq<NotificationId>, page: int, limit: int, total: nat, pages: PageCount)

  /** `user`'s notification ids, newest first. */
  function Newest(ns: map<NotificationId, Notification>, user: UserId): (r: seq<NotificationId>)
    ensures forall k :: k in r <==> k in ns && ns[k].userId == user
    ensures forall i, j :: 0 <= i < j < |r| ==>
      r[i] != r[j] && r[i] in ns && r[j] in ns && ns[r[i]].createdAt >= ns[r[j]].createdAt
  {
    var key := map k | k in ns && ns[k].userId == user :: -ns[k].createdAt;
    var r := Ordering.OrderBy(key);
    forall i, j | 0 <= i < j < |r|
      ensures r[i] != r[j] && r[i] in ns && r[j] in ns && ns[r[i]].createdAt >= ns[r[j]].createdAt
    {
      Ordering.AscendingMeans(key, r, i, j);
    }
    r
  }

  /** The rows `skip .. skip + take` of `xs`, as many of them as exist. */
  function Window<T>(xs: seq<T>, skip: nat, take: nat): (r: seq<T>)
    ensures |r| == if skip + take <= |xs| then take else if skip <= |xs| then |xs| - skip else 0
    ensures forall i :: 0 <= i < |r| ==> skip + i < |xs| && r[i] == xs[skip + i]
  {
    if skip >= |xs| then [] else if skip + take >= |xs| then xs[skip..] else xs[skip..skip + take]
  }

  /** One page of `all`: `skip = (page - 1) * limit` and `take = limit`; a negative skip or take fails with 500. */
  function Paginate(all: seq<NotificationId>, page: int, limit: int): Result<Listing, int>
  {
    var skip := (page - 1) * limit;
    if skip < 0 || limit < 0 then Err(500)
    else Ok(Listing(Window(all, skip, limit), page, limit, |all|, if limit == 0 then Null else Pages(CeilDiv(|all|, limit))))
  }

  /** `getNotifications`: `page` and `limit` are the query values, absent meaning 1 and 10. */
  function GetNotifications(ns: map<NotificationId, Notification>, user: UserId, page: Option<int>, limit: Option<int>)
    : Result<Listing, int>
  {
    Paginate(Newest(ns, user), if page.Some? then page.value else 1, if limit.Some? then limit.value else 10)
  }

  /** The listing's total counts exactly the user's notifications. */
  lemma NewestCountsAll(ns: map<NotificationId, Notification>, user: UserId)
    ensures |Newest(ns, user)| == |Owned(ns, user)|
  {
    var all := Newest(ns, user);
    DistinctCard(all, Owned(ns, user));
  }

  /** With no query values, the listing is page 1 of 10: the ten newest of the user's notifications, and `ceil(total / 10)` pages. */
  lemma DefaultListing(ns: map<NotificationId, Notification>, user: UserId)
    ensures var r := GetNotifications(ns, user, None, None);
      var all := Newest(ns, user);
      && r.Ok? && r.value.page == 1 && r.value.limit == 10 && r.value.total == |all|
      && r.value.items == all[..if |all| < 10 then |all| else 10]
      && r.value.pages == Pages(CeilDiv(|all|, 10))
  {
    var all := Newest(ns, user);
    assert GetNotifications(ns, user, None, None) == Paginate(all, 1, 10);
    assert Paginate(all, 1, 10).value.items == Window(all, 0, 10);
  }

  lemma DistinctCard(xs: seq<NotificationId>, s: set<NotificationId>)
    requires forall k :: k in xs <==> k in s
    requires forall i, j :: 0 <= i < j < |xs| ==> xs[i] != xs[j]
    ensures |xs| == |s|
    decreases |xs|
  {
    if xs != [] {
      var t := xs[1..];
      assert forall k :: k in t <==> k in s - {xs[0]} by {
        forall k ensures k in t <==> k in s - {xs[0]} {
          if k in t {
            var j :| 0 <= j < |t| && t[j] == k;
            assert xs[j + 1] == k;
          }
          if k in s - {xs[0]} {
            var j :| 0 <= j < |xs| && xs[j] == k;
            assert t[j - 1] == k;
          }
        }
      }
      DistinctCard(t, s - {xs[0]});
    }
  }

  lemma DivisionSplits(i: nat, limit: int)
    requires limit >= 1
    ensures (i / limit + 1 - 1) * limit + i % limit == i
    ensures 0 <= i % limit < limit && (i / limit + 1 - 1) * limit <= i
  {
  }

  lemma ScaleMonotone(a: int, b: int, limit: int)
    requires a <= b && limit >= 0
    ensures a * limit <= b * limit
  {
    assert b * limit - a * limit == (b - a) * limit;
  }

  /**
   * For a positive `limit`, row `i` of the list is item `i % limit` of page
   * `i / limit + 1`: the pages tile the list without gap or overlap.
   */
  lemma RowOnPage(all: seq<NotificationId>, limit: int, i: nat)
    requires limit >= 1 && i < |all|
    ensures var r := Paginate(all, i / limit + 1, limit);
      r.Ok? && i % limit < |r.value.items| && r.value.items[i % limit] == all[i]
  {
    DivisionSplits(i, limit);
    var skip := (i / limit + 1 - 1) * limit;
    var w := Window(all, skip, limit);
    if skip + limit >= |all| {
      assert w == all[skip..];
    } else {
      assert w == all[skip..skip + limit];
    }
  }

  /** A page at or after the first holds items exactly when its number is at most `pages`. */
  lemma PageNonEmptyIff(all: seq<NotificationId>, page: int, limit: int)
    requires page >= 1 && limit >= 1
    ensures var r := Paginate(all, page, limit);
      && r.Ok? && r.value.pages == Pages(CeilDiv(r.value.total, limit))
      && (|r.value.items| > 0 <==> page <= r.value.pages.n)
  {
    var n := |all|;
    var c := CeilDiv(n, limit);
    ScaleMonotone(0, page - 1, limit);
    if page <= c {
      ScaleMonotone(page - 1, c - 1, limit);
    } else {
      ScaleMonotone(c, page - 1, limit);
    }
  }

  /** A limit of 0 yields no items and a null page count; a page below 1 with a positive limit is rejected. */
  lemma PaginateEdges(all: seq<NotificationId>, page: int, limit: int)
    ensures Paginate(all, page, 0).Ok?
    ensures Paginate(all, page, 0).value.items == []
    ensures Paginate(all, page, 0).value.pages == Null
    ensures page < 1 && limit >= 1 ==> Paginate(all, page, limit) == Err(500)
  {
    if page < 1 && limit >= 1 {
      assert (page - 1) * limit <= page - 1;
    }
  }
}
