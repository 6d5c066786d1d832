/** Announcements and the per-user notifications created for them: who
    receives an announcement, which notifications a user sees and in what
    order, the unread count, and marking and deleting notifications. */
module NotificationService {
  import opened Common
  import opened Ordering
  import opened AuthorizationService

  /** One row of `announcements`. */
  datatype Announcement = Announcement(
    id: nat,
    title: string,
    content: string,
    announcementType: string,
    courseId: Option<nat>,
    fileId: Option<nat>,
    createdById: nat,
    createdAt: int,
    priority: int,
    expiresAt: Option<int>)

  /** One row of `user_notifications`. */
  datatype UserNotification = UserNotification(
    id: nat,
    userId: nat,
    announcementId: nat,
    isRead: bool,
    readAt: Option<int>,
    createdAt: int)

  /** One entry of the list `get_user_notifications` returns. */
  datatype NotificationView = NotificationView(
    id: nat,
    announcementId: nat,
    title: string,
    content: string,
    announcementType: string,
    courseId: Option<nat>,
    fileId: Option<nat>,
    priority: int,
    isRead: bool,
    createdAt: int,
    readAt: Option<int>,
    icon: string)

  const DefaultIcon: string := "notifications"

  /** `_get_notification_icon`: the icon of each announcement type, with a
      default for any other string. */
  function NotificationIcon(announcementType: string): (icon: string)
    ensures icon in {"campaign", "school", "fiber_new", "info", DefaultIcon}
    ensures announcementType !in {"course_announcement", "new_course", "new_content", "system"} ==> icon == DefaultIcon
  {
    match announcementType
    case "course_announcement" => "campaign"
    case "new_course" => "school"
    case "new_content" => "fiber_new"
    case "system" => "info"
    case _ => DefaultIcon
  }

  /** The users an announcement goes to: the enrolled users of its course
      when it has a (truthy) course, else every user, in table order. */
  function Recipients(a: Announcement, enrollments: seq<Enrollment>, users: seq<User>): (r: seq<nat>)
    ensures a.courseId.Some? && a.courseId.value != 0 ==>
              forall u :: u in r <==> Enrolled(enrollments, u, a.courseId.value)
    ensures !(a.courseId.Some? && a.courseId.value != 0) ==>
              forall u :: u in r <==> exists x :: x in users && x.id == u
  {
    if a.courseId.Some? && a.courseId.value != 0 then CourseMembers(enrollments, a.courseId.value)
    else UserIds(users)
  }

  function CourseMembers(enrollments: seq<Enrollment>, courseId: nat): (r: seq<nat>)
    ensures forall u :: u in r <==> Enrolled(enrollments, u, courseId)
    decreases |enrollments|
  {
    if |enrollments| == 0 then []
    else
      var rest := CourseMembers(enrollments[1..], courseId);
      assert forall e :: e in enrollments ==> e == enrollments[0] || e in enrollments[1..];
      if enrollments[0].courseId == courseId then [enrollments[0].userId] + rest else rest
  }

  function UserIds(users: seq<User>): (r: seq<nat>)
    ensures forall u :: u in r <==> exists x :: x in users && x.id == u
    decreases |users|
  {
    if |users| == 0 then []
    else
      var rest := UserIds(users[1..]);
      assert forall x :: x in users ==> x == users[0] || x in users[1..];
      [users[0].id] + rest
  }

  predicate HasNotification(ns: seq<UserNotification>, userId: nat, announcementId: nat)
  {
    exists n :: n in ns && n.userId == userId && n.announcementId == announcementId
  }

  /** At most one notification per (user, announcement). */
  predicate NoDuplicates(ns: seq<UserNotification>)
  {
    forall i, j :: (0 <= i < |ns| && 0 <= j < |ns| && ns[i].userId == ns[j].userId
                    && ns[i].announcementId == ns[j].announcementId) ==> i == j
  }

  /** The loop of `_create_user_notifications` over the first recipients:
      a recipient who already has the notification (including one added
      earlier in the same loop) is skipped. Returns the rows and the next
      free id. */
  function Notified(ns: seq<UserNotification>, nextId: nat, announcementId: nat, recipients: seq<nat>, now: int)
    : (r: (seq<UserNotification>, nat))
    ensures |ns| <= |r.0| && r.0[..|ns|] == ns && nextId <= r.1
    decreases |recipients|
  {
    if |recipients| == 0 then (ns, nextId)
    else
      var (before, id) := Notified(ns, nextId, announcementId, recipients[..|recipients| - 1], now);
      var u := recipients[|recipients| - 1];
      if HasNotification(before, u, announcementId) then (before, id)
      else
        assert (before + [UserNotification(id, u, announcementId, false, None, now)])[..|ns|] == before[..|ns|];
        (before + [UserNotification(id, u, announcementId, false, None, now)], id + 1)
  }

  /** Every recipient ends up with the notification, no duplicate is ever
      created, and only rows for this announcement and these recipients
      are added. */
  lemma {:induction false} NotifiedOnce(ns: seq<UserNotification>, nextId: nat, announcementId: nat, recipients: seq<nat>, now: int)
    requires NoDuplicates(ns)
    ensures var (after, _) := Notified(ns, nextId, announcementId, recipients, now);
      && NoDuplicates(after)
      && (forall u :: u in recipients ==> HasNotification(after, u, announcementId))
      && (forall k :: |ns| <= k < |after| ==>
            (after[k].announcementId == announcementId && after[k].userId in recipients && !after[k].isRead))
    decreases |recipients|
  {
    if |recipients| > 0 {
      var init := recipients[..|recipients| - 1];
      var u := recipients[|recipients| - 1];
      NotifiedOnce(ns, nextId, announcementId, init, now);
      var (before, id) := Notified(ns, nextId, announcementId, init, now);
      assert forall x :: x in recipients ==> x in init || x == u;
      if !HasNotification(before, u, announcementId) {
        var row := UserNotification(id, u, announcementId, false, None, now);
        var after := before + [row];
        assert after[|before|] == row;
        assert forall i :: 0 <= i < |before| ==>
          after[i] == before[i] && before[i] in before && !(before[i].userId == u && before[i].announcementId == announcementId);
        forall x | x in recipients
          ensures HasNotification(after, x, announcementId)
        {
          if x in init {
            var n :| n in before && n.userId == x && n.announcementId == announcementId;
            assert n in after;
          } else {
            assert after[|before|] in after;
          }
        }
      }
    }
  }

  /** The announcement is shown to a user with these enrolled course ids:
      it is system-wide or in one of those courses, and has not expired. */
  predicate Shown(a: Announcement, enrolledIds: seq<nat>, now: int): (b: bool)
    ensures a.courseId.None? && a.expiresAt.None? ==> b
    ensures a.expiresAt.Some? && a.expiresAt.value <= now ==> !b
    ensures a.courseId.Some? && a.courseId.value !in enrolledIds ==> !b
  {
    (a.courseId.None? || a.courseId.value in enrolledIds) && (a.expiresAt.None? || a.expiresAt.value > now)
  }

  /** The rows of the join, in table order, that `get_user_notifications`
      filters to: the user's notifications whose announcement exists and is
      shown, unread ones only when asked. */
  function Matching(ns: seq<UserNotification>, announcements: map<nat, Announcement>, userId: nat,
                    enrolledIds: seq<nat>, unreadOnly: bool, now: int): (r: seq<(UserNotification, Announcement)>)
    ensures forall p :: p in r <==>
              p.0 in ns && p.0.userId == userId && p.0.announcementId in announcements
              && p.1 == announcements[p.0.announcementId] && Shown(p.1, enrolledIds, now)
              && (unreadOnly ==> !p.0.isRead)
    ensures |r| <= |ns|
    decreases |ns|
  {
    if |ns| == 0 then []
    else
      var n := ns[0];
      var rest := Matching(ns[1..], announcements, userId, enrolledIds, unreadOnly, now);
      assert forall x :: x in ns ==> x == n || x in ns[1..];
      if n.userId == userId && n.announcementId in announcements
         && Shown(announcements[n.announcementId], enrolledIds, now) && (!unreadOnly || !n.isRead)
      then [(n, announcements[n.announcementId])] + rest
      else rest
  }

  /** `ORDER BY priority DESC, created_at DESC`. */
  function ByPriority(p: (UserNotification, Announcement), q: (UserNotification, Announcement)): bool
  {
    p.1.priority > q.1.priority || (p.1.priority == q.1.priority && p.1.createdAt >= q.1.createdAt)
  }

  lemma PriorityOrderIsPreorder()
    ensures TotalPreorder(ByPriority)
  {
  }

  /** The rows ordered by priority and age, cut at the limit: rows of the
      input, in that order, and a row left out comes after every row kept. */
  function Ranked(rows: seq<(UserNotification, Announcement)>, limit: nat): (r: seq<(UserNotification, Announcement)>)
    ensures |r| == (if limit < |rows| then limit else |rows|)
    ensures multiset(r) <= multiset(rows)
    ensures limit >= |rows| ==> multiset(r) == multiset(rows)
    ensures forall i, j :: 0 <= i < j < |r| ==> ByPriority(r[i], r[j])
    ensures forall p, q :: q in r && multiset(r)[p] < multiset(rows)[p] ==> ByPriority(q, p)
  {
    var sorted := SortBy(rows, ByPriority);
    PriorityOrderIsPreorder();
    SortBySorted(rows, ByPriority);
    TakeSorted(sorted, ByPriority, limit);
    TakeKeepsTop(sorted, rows, ByPriority, limit);
    Take(sorted, limit)
  }

  /** The listing shows every matching row when the limit does not cut it;
      otherwise a matching row it leaves out has no higher priority than
      any listed entry, and is no newer than those of equal priority. */
  lemma {:induction false} ListingIsTop(rows: seq<(UserNotification, Announcement)>, limit: nat)
    ensures var r := Views(Ranked(rows, limit));
      && (forall p :: p in rows && View(p) !in r ==> forall k :: 0 <= k < |r| ==>
            r[k].priority > p.1.priority || (r[k].priority == p.1.priority && r[k].createdAt >= p.1.createdAt))
      && (limit >= |rows| ==> forall p :: p in rows ==> View(p) in r)
  {
    var ranked := Ranked(rows, limit);
    var r := Views(ranked);
    forall p | p in rows && View(p) !in r
      ensures forall k :: 0 <= k < |r| ==>
                r[k].priority > p.1.priority || (r[k].priority == p.1.priority && r[k].createdAt >= p.1.createdAt)
    {
      ListedIfRanked(ranked, p);
      assert p in multiset(rows);
      forall k | 0 <= k < |r|
        ensures r[k].priority > p.1.priority || (r[k].priority == p.1.priority && r[k].createdAt >= p.1.createdAt)
      {
        assert ranked[k] in ranked;
        assert ByPriority(ranked[k], p);
      }
    }
    if limit >= |rows| {
      forall p | p in rows
        ensures View(p) in r
      {
        assert p in multiset(ranked);
        ListedIfRanked(ranked, p);
      }
    }
  }

  /** A ranked row is listed. */
  lemma ListedIfRanked(ranked: seq<(UserNotification, Announcement)>, p: (UserNotification, Announcement))
    ensures p in ranked <==> p in multiset(ranked)
    ensures p in ranked ==> View(p) in Views(ranked)
  {
    if p in ranked {
      var k :| 0 <= k < |ranked| && ranked[k] == p;
      assert Views(ranked)[k] == View(p);
    }
  }

  function Views(ps: seq<(UserNotification, Announcement)>): (r: seq<NotificationView>)
    ensures |r| == |ps| && forall k :: 0 <= k < |ps| ==> r[k] == View(ps[k])
  {
    seq(|ps|, k requires 0 <= k < |ps| => View(ps[k]))
  }

  function View(p: (UserNotification, Announcement)): NotificationView
  {
    var (n, a) := p;
    NotificationView(n.id, a.id, a.title, a.content, a.announcementType, a.courseId, a.fileId, a.priority,
                     n.isRead, a.createdAt, n.readAt, NotificationIcon(a.announcementType))
  }

  /** The rows after `mark_all_as_read`: every unread notification of the
      user is read at `now`. */
  function AllRead(ns: seq<UserNotification>, userId: nat, now: int): (r: seq<UserNotification>)
    ensures |r| == |ns|
    ensures forall k :: 0 <= k < |ns| ==>
              && r[k].id == ns[k].id && r[k].userId == ns[k].userId && r[k].announcementId == ns[k].announcementId
              && (ns[k].userId == userId ==> r[k].isRead)
              && (ns[k].userId == userId && !ns[k].isRead ==> r[k].readAt == Some(now))
              && (ns[k].userId != userId || ns[k].isRead ==> r[k] == ns[k])
  {
    seq(|ns|, i requires 0 <= i < |ns| =>
      if ns[i].userId == userId && !ns[i].isRead then ns[i].(isRead := true, readAt := Some(now)) else ns[i])
  }

  /** The number of unread notifications of the user. */
  function UnreadCount(ns: seq<UserNotification>, userId: nat): (c: nat)
    ensures c <= |ns|
    ensures c == 0 <==> forall n :: n in ns && n.userId == userId ==> n.isRead
    decreases |ns|
  {
    if |ns| == 0 then 0
    else
      var init := ns[..|ns| - 1];
      var last := ns[|ns| - 1];
      assert forall n :: n in ns ==> n in init || n == last;
      UnreadCount(init, userId) + (if last.userId == userId && !last.isRead then 1 else 0)
  }

  /** After marking all read the user has nothing unread. */
  lemma AllReadClears(ns: seq<UserNotification>, userId: nat, now: int)
    ensures UnreadCount(AllRead(ns, userId, now), userId) == 0
  {
    var r := AllRead(ns, userId, now);
    forall n | n in r && n.userId == userId
      ensures n.isRead
    {
      var k :| 0 <= k < |r| && r[k] == n;
    }
  }

  /** Position of the user's notification with the id, or -1. */
  function FindOwned(ns: seq<UserNotification>, notificationId: nat, userId: nat): (r: int)
    ensures -1 <= r < |ns|
    ensures r >= 0 ==> ns[r].id == notificationId && ns[r].userId == userId
    ensures r < 0 <==> forall n :: n in ns ==> !(n.id == notificationId && n.userId == userId)
    decreases |ns|
  {
    if |ns| == 0 then -1
    else if ns[0].id == notificationId && ns[0].userId == userId then 0
    else
      var r := FindOwned(ns[1..], notificationId, userId);
      assert forall n :: n in ns ==> n == ns[0] || n in ns[1..];
      if r < 0 then -1 else r + 1
  }

  class NotificationService {
    const auth: AuthorizationService
    var users: seq<User>
    var announcements: map<nat, Announcement>
    var notifications: seq<UserNotification>
    var nextAnnouncementId: nat
    var nextNotificationId: nat

    constructor (auth: AuthorizationService, users: seq<User>, announcements: map<nat, Announcement>,
                 notifications: seq<UserNotification>, nextAnnouncementId: nat, nextNotificationId: nat)
      ensures this.auth == auth && this.users == users && this.announcements == announcements
      ensures this.notifications == notifications
      ensures this.nextAnnouncementId == nextAnnouncementId && this.nextNotificationId == nextNotificationId
    {
      this.auth := auth;
      this.users := users;
      this.announcements := announcements;
      this.notifications := notifications;
      this.nextAnnouncementId := nextAnnouncementId;
      this.nextNotificationId := nextNotificationId;
    }

    /** `create_announcement`: the row, then its notifications. */
    method CreateAnnouncement(title: string, content: string, announcementType: string, createdById: nat,
                              courseId: Option<nat>, fileId: Option<nat>, priority: int, expiresAt: Option<int>,
                              now: int, commitOk: bool)
      returns (a: Announcement)
      modifies this
      ensures a == Announcement(old(nextAnnouncementId), title, content, announcementType, courseId, fileId,
                                createdById, now, priority, expiresAt)
      ensures announcements == old(announcements)[a.id := a] && nextAnnouncementId == old(nextAnnouncementId) + 1
      ensures var (rows, next) := Notified(old(notifications), old(nextNotificationId), a.id,
                                           Recipients(a, auth.enrollments, users), now);
        if commitOk then notifications == rows && nextNotificationId == next
        else notifications == old(notifications) && nextNotificationId == old(nextNotificationId)
      ensures users == old(users)
    {
      a := Announcement(nextAnnouncementId, title, content, announcementType, courseId, fileId, createdById, now,
                        priority, expiresAt);
      announcements := announcements[a.id := a];
      nextAnnouncementId := nextAnnouncementId + 1;
      CreateUserNotifications(a, now, commitOk);
    }

    /** `_create_user_notifications`: one unread notification per
        recipient who has none yet; a failed commit rolls all of them
        back. */
    method CreateUserNotifications(a: Announcement, now: int, commitOk: bool)
      modifies this
      ensures var (rows, next) := Notified(old(notifications), old(nextNotificationId), a.id,
                                           Recipients(a, auth.enrollments, users), now);
        if commitOk then notifications == rows && nextNotificationId == next
        else notifications == old(notifications) && nextNotificationId == old(nextNotificationId)
      ensures users == old(users) && announcements == old(announcements)
      ensures nextAnnouncementId == old(nextAnnouncementId)
    {
      var userIds := Recipients(a, auth.enrollments, users);
      var rows, next := notifications, nextNotificationId;
      var i := 0;
      while i < |userIds|
        invariant 0 <= i <= |userIds|
        invariant (rows, next) == Notified(old(notifications), old(nextNotificationId), a.id, userIds[..i], now)
      {
        var u := userIds[i];
        assert userIds[..i + 1][..i] == userIds[..i];
        if !(exists n :: n in rows && n.userId == u && n.announcementId == a.id) {
          rows := rows + [UserNotification(next, u, a.id, false, None, now)];
          next := next + 1;
        }
        i := i + 1;
      }
      assert userIds[..i] == userIds;
      if commitOk {
        notifications, nextNotificationId := rows, next;
      }
    }

    /** `get_user_notifications`: the matching rows, highest priority and
        newest first, at most `limit` of them. */
    function GetUserNotifications(user: User, unreadOnly: bool, limit: nat, now: int): (r: seq<NotificationView>)
      reads this, auth
      ensures var rows := Matching(notifications, announcements, user.id, auth.GetEnrolledCourseIds(user), unreadOnly, now);
        && |r| == (if limit < |rows| then limit else |rows|)
        && (forall p :: p in rows && View(p) !in r ==> forall k :: 0 <= k < |r| ==>
              r[k].priority > p.1.priority || (r[k].priority == p.1.priority && r[k].createdAt >= p.1.createdAt))
        && (limit >= |rows| ==> forall p :: p in rows ==> View(p) in r)
    {
      var rows := Matching(notifications, announcements, user.id, auth.GetEnrolledCourseIds(user), unreadOnly, now);
      ListingIsTop(rows, limit);
      Views(Ranked(rows, limit))
    }

    /** `get_unread_count`: the unread rows among those shown. */
    function GetUnreadCount(user: User, now: int): (c: nat)
      reads this, auth
      ensures c <= |notifications|
    {
      |Matching(notifications, announcements, user.id, auth.GetEnrolledCourseIds(user), true, now)|
    }

    /** `mark_as_read`: only the caller's own notification is marked. */
    method MarkAsRead(notificationId: nat, userId: nat, now: int) returns (ok: bool)
      modifies this
      ensures ok <==> exists n :: n in old(notifications) && n.id == notificationId && n.userId == userId
      ensures var i := FindOwned(old(notifications), notificationId, userId);
        if i < 0 then notifications == old(notifications)
        else notifications == old(notifications)[i := old(notifications)[i].(isRead := true, readAt := Some(now))]
      ensures users == old(users) && announcements == old(announcements)
      ensures nextNotificationId == old(nextNotificationId) && nextAnnouncementId == old(nextAnnouncementId)
    {
      var i := FindOwned(notifications, notificationId, userId);
      if i < 0 {
        return false;
      }
      notifications := notifications[i := notifications[i].(isRead := true, readAt := Some(now))];
      return true;
    }

    /** `mark_all_as_read`: marks every unread notification of the user and
        returns how many there were. */
    method MarkAllAsRead(userId: nat, now: int) returns (count: nat)
      modifies this
      ensures notifications == AllRead(old(notifications), userId, now)
      ensures count == UnreadCount(old(notifications), userId)
      ensures users == old(users) && announcements == old(announcements)
      ensures nextNotificationId == old(nextNotificationId) && nextAnnouncementId == old(nextAnnouncementId)
    {
      count := 0;
      var i := 0;
      while i < |notifications|
        invariant 0 <= i <= |notifications| == |old(notifications)|
        invariant forall k :: 0 <= k < i ==> notifications[k] == AllRead(old(notifications), userId, now)[k]
        invariant forall k :: i <= k < |notifications| ==> notifications[k] == old(notifications)[k]
        invariant count == UnreadCount(old(notifications)[..i], userId)
        invariant users == old(users) && announcements == old(announcements)
        invariant nextNotificationId == old(nextNotificationId) && nextAnnouncementId == old(nextAnnouncementId)
      {
        var n := notifications[i];
        assert old(notifications)[..i + 1][..i] == old(notifications)[..i];
        if n.userId == userId && !n.isRead {
          notifications := notifications[i := n.(isRead := true, readAt := Some(now))];
          count := count + 1;
        }
        i := i + 1;
      }
      assert old(notifications)[..i] == old(notifications);
    }

    /** `delete_notification`: only the caller's own notification goes. */
    method DeleteNotification(notificationId: nat, userId: nat) returns (ok: bool)
      modifies this
      ensures ok <==> exists n :: n in old(notifications) && n.id == notificationId && n.userId == userId
      ensures var i := FindOwned(old(notifications), notificationId, userId);
        if i < 0 then notifications == old(notifications)
        else notifications == old(notifications)[..i] + old(notifications)[i + 1..]
      ensures users == old(users) && announcements == old(announcements)
      ensures nextNotificationId == old(nextNotificationId) && nextAnnouncementId == old(nextAnnouncementId)
    {
      var i := FindOwned(notifications, notificationId, userId);
      if i < 0 {
        return false;
      }
      notifications := notifications[..i] + notifications[i + 1..];
      return true;
    }
  }

  /** Every listed notification is one of the user's own, its announcement
      is shown to them, and it is unread when only unread ones were asked
      for; the list runs from highest priority down, newest first within a
      priority. */
  lemma ListingShowsOnlyVisible(s: NotificationService, user: User, unreadOnly: bool, limit: nat, now: int)
    ensures var r := s.GetUserNotifications(user, unreadOnly, limit, now);
      && (forall k :: 0 <= k < |r| ==>
            exists n, a :: n in s.notifications && n.userId == user.id && n.announcementId in s.announcements
                           && a == s.announcements[n.announcementId]
                           && Shown(a, s.auth.GetEnrolledCourseIds(user), now)
                           && (unreadOnly ==> !n.isRead) && r[k] == View((n, a)))
      && (forall i, j :: 0 <= i < j < |r| ==>
            r[i].priority > r[j].priority || (r[i].priority == r[j].priority && r[i].createdAt >= r[j].createdAt))
  {
    var rows := Matching(s.notifications, s.announcements, user.id, s.auth.GetEnrolledCourseIds(user), unreadOnly, now);
    var r := s.GetUserNotifications(user, unreadOnly, limit, now);
    forall k | 0 <= k < |r|
      ensures exists n, a :: n in s.notifications && n.userId == user.id && n.announcementId in s.announcements
                             && a == s.announcements[n.announcementId]
                             && Shown(a, s.auth.GetEnrolledCourseIds(user), now)
                             && (unreadOnly ==> !n.isRead) && r[k] == View((n, a))
    {
      var p := Ranked(rows, limit)[k];
      assert p in multiset(Ranked(rows, limit));
      assert p in rows && r[k] == View(p);
      assert p == (p.0, p.1);
    }
  }

  /** The unread count is the length of the unread listing when the limit
      does not cut it, and is zero right after marking everything read. */
  lemma UnreadCountMatchesListing(s: NotificationService, user: User, limit: nat, now: int)
    requires limit >= s.GetUnreadCount(user, now)
    ensures |s.GetUserNotifications(user, true, limit, now)| == s.GetUnreadCount(user, now)
    ensures UnreadCount(s.notifications, user.id) == 0 ==> s.GetUnreadCount(user, now) == 0
  {
    if UnreadCount(s.notifications, user.id) == 0 {
      NothingUnreadMatches(s.notifications, s.announcements, user.id, s.auth.GetEnrolledCourseIds(user), now);
    }
  }

  lemma {:induction false} NothingUnreadMatches(ns: seq<UserNotification>, announcements: map<nat, Announcement>,
                                                userId: nat, enrolledIds: seq<nat>, now: int)
    requires UnreadCount(ns, userId) == 0
    ensures Matching(ns, announcements, userId, enrolledIds, true, now) == []
    decreases |ns|
  {
    if |ns| > 0 {
      assert ns[0] in ns;
      assert forall n :: n in ns[1..] ==> n in ns;
      NothingUnreadMatches(ns[1..], announcements, userId, enrolledIds, now);
    }
  }
}
