/**
 * The notification engine as functions over a snapshot of the tables:
 * who sees a notification, the two ordered feeds with their read state,
 * the unread count, and the state transitions of the publishers and of
 * the two mark-as-read actions.  NotificationStore runs the transitions
 * in place on a store object.
 */
module Notifications {
  import opened Accounts
  import opened Schema
  import opened Sequences
  import opened Conditions

  /**
   * A snapshot of the database: the two notification tables, the users and
   * roles they refer to, and the next identifier `createId()` will hand out.
   */
  datatype Db = Db(
    notifications: seq<Notification>,
    readRecords: seq<NotificationRead>,
    directory: Directory,
    nextId: Id)

  datatype Failure =
    | Unauthenticated    // "Utente non autenticato"
    | UserRoleNotFound   // "Ruolo utente non trovato"
    | NotificationNotFound
    | RoleNotFound
    | UserNotFound

  datatype Result<T> = Ok(value: T) | Err(failure: Failure)

  // ---------------------------------------------------------------- targeting

  /** The targeting rule: GLOBAL reaches everyone, ROLE one role, USER one user. */
  predicate Visible(n: Notification, userId: UserId, roleId: RoleId)
  {
    || n.targetType == Global
    || (n.targetType == Role && n.targetId == Some(roleId))
    || (n.targetType == User && n.targetId == Some(userId))
  }

  predicate OfType(n: Notification, t: Option<NotificationType>)
  {
    t.None? || n.notificationType == t.value
  }

  /** The audience condition the queries send to the database selects exactly the visible rows. */
  lemma AudienceSelectsVisible(n: Notification, userId: UserId, roleId: RoleId)
    ensures Selects(AudienceCondition(userId, roleId), n) <==> Visible(n, userId, roleId)
  {
    var global := Eq(TargetTypeColumn, IntValue(TargetTypeCode(Global)));
    var toRole := And(Eq(TargetTypeColumn, IntValue(TargetTypeCode(Role))), Eq(TargetIdColumn, StringValue(roleId)));
    var toUser := And(Eq(TargetTypeColumn, IntValue(TargetTypeCode(User))), Eq(TargetIdColumn, StringValue(userId)));
    assert AudienceCondition(userId, roleId) == Or(Or(global, toRole), toUser);
    SelectsIffHolds(AudienceCondition(userId, roleId), n);
    assert Holds(global, n) <==> n.targetType == Global;
    assert Holds(toRole, n) <==> n.targetType == Role && n.targetId == Some(roleId);
    assert Holds(toUser, n) <==> n.targetType == User && n.targetId == Some(userId);
  }

  lemma FeedConditionSelects(n: Notification, userId: UserId, roleId: RoleId, t: NotificationType)
    ensures Selects(FeedCondition(userId, roleId, t), n) <==> Visible(n, userId, roleId) && n.notificationType == t
  {
    SelectsIffHolds(FeedCondition(userId, roleId, t), n);
    AudienceSelectsVisible(n, userId, roleId);
    SelectsIffHolds(AudienceCondition(userId, roleId), n);
  }

  lemma OptionalTypeConditionSelects(n: Notification, userId: UserId, roleId: RoleId, t: Option<NotificationType>)
    ensures Selects(OptionalTypeCondition(userId, roleId, t), n) <==> Visible(n, userId, roleId) && OfType(n, t)
  {
    SelectsIffHolds(OptionalTypeCondition(userId, roleId, t), n);
    AudienceSelectsVisible(n, userId, roleId);
    SelectsIffHolds(AudienceCondition(userId, roleId), n);
  }

  /** A USER-scoped notification addressed to one user is hidden from every other user. */
  lemma UserScopedIsPrivate(n: Notification, target: UserId, other: UserId, roleId: RoleId)
    requires n.targetType == User && n.targetId == Some(target)
    requires other != target
    ensures !Visible(n, other, roleId)
  {
  }

  /** A ROLE-scoped notification is seen by a user exactly when the user holds that role. */
  lemma RoleScopedReachesRole(n: Notification, target: RoleId, userId: UserId, roleId: RoleId)
    requires n.targetType == Role && n.targetId == Some(target)
    ensures Visible(n, userId, roleId) <==> roleId == target
  {
  }

  // ---------------------------------------------------------------- queries

  predicate IdsDistinct(ns: seq<Notification>)
  {
    forall i, j :: 0 <= i < j < |ns| ==> ns[i].id != ns[j].id
  }

  /** `findMany({ where: c })`: the rows for which the condition is TRUE, in table order. */
  function Where(ns: seq<Notification>, c: Condition): (r: seq<Notification>)
    ensures forall n :: multiset(r)[n] == if Selects(c, n) then multiset(ns)[n] else 0
    ensures forall n :: n in r ==> n in ns && Selects(c, n)
  {
    if ns == [] then []
    else
      var rest := Where(ns[1..], c);
      assert multiset(ns) == multiset{ns[0]} + multiset(ns[1..]) by {
        assert ns == [ns[0]] + ns[1..];
      }
      if Selects(c, ns[0]) then
        assert multiset([ns[0]] + rest) == multiset{ns[0]} + multiset(rest);
        [ns[0]] + rest
      else
        rest
  }

  /** Filtering keeps identifiers distinct. */
  lemma {:induction false} WhereKeepsIdsDistinct(ns: seq<Notification>, c: Condition)
    requires IdsDistinct(ns)
    ensures IdsDistinct(Where(ns, c))
  {
    if ns != [] {
      var rest := Where(ns[1..], c);
      WhereKeepsIdsDistinct(ns[1..], c);
      forall x | x in rest ensures x.id != ns[0].id {
        var k :| 0 <= k < |ns[1..]| && ns[1..][k] == x;
        assert ns[k + 1] == x;
      }
    }
  }

  predicate HasRead(rs: seq<NotificationRead>, notificationId: Id, userId: UserId)
  {
    exists r :: r in rs && r.notificationId == notificationId && r.userId == userId
  }

  /**
   * The rows of the `reads` relation loaded with a notification, restricted
   * to one user (`with: { reads: { where: eq(userId, user.id) } }`).
   */
  function ReadsBy(rs: seq<NotificationRead>, notificationId: Id, userId: UserId): (r: seq<NotificationRead>)
    ensures forall x :: x in r ==> x in rs && x.notificationId == notificationId && x.userId == userId
    ensures |r| > 0 <==> HasRead(rs, notificationId, userId)
  {
    if rs == [] then []
    else
      assert rs == [rs[0]] + rs[1..];
      var rest := ReadsBy(rs[1..], notificationId, userId);
      if rs[0].notificationId == notificationId && rs[0].userId == userId then [rs[0]] + rest else rest
  }

  /** Every read of this notification by this user is loaded, as many times as it is stored, and no other read is. */
  lemma {:induction false} ReadsByLoadsEveryRead(rs: seq<NotificationRead>, notificationId: Id, userId: UserId)
    ensures forall x :: multiset(ReadsBy(rs, notificationId, userId))[x]
                     == if x.notificationId == notificationId && x.userId == userId then multiset(rs)[x] else 0
  {
    if rs != [] {
      assert rs == [rs[0]] + rs[1..];
      ReadsByLoadsEveryRead(rs[1..], notificationId, userId);
    }
  }

  /** "No read is loaded with it" (`reads.length === 0`), as a test on notifications. */
  function Unread(rs: seq<NotificationRead>, userId: UserId): Notification -> bool
  {
    (n: Notification) => |ReadsBy(rs, n.id, userId)| == 0
  }

  // ---------------------------------------------------------------- caller

  /**
   * The caller check shared by the feeds, mark-all and the count: an
   * authenticated session, then the user's role.
   */
  function CurrentUser(dir: Directory, session: Option<UserId>): (r: Result<(UserId, RoleId)>)
    ensures !Authenticated(session) ==> r == Err(Unauthenticated)
    ensures Authenticated(session) && RoleOf(dir, session.value).None? ==> r == Err(UserRoleNotFound)
    ensures r.Ok? <==> Authenticated(session) && RoleOf(dir, session.value).Some?
    ensures r.Ok? ==> r.value == (session.value, RoleOf(dir, session.value).value)
  {
    if !Authenticated(session) then Err(Unauthenticated)
    else
      match RoleOf(dir, session.value)
      case None => Err(UserRoleNotFound)
      case Some(roleId) => Ok((session.value, roleId))
  }

  // ---------------------------------------------------------------- feeds

  /** A feed entry: the notification, the user's reads of it, and `isRead`. */
  datatype FeedItem = FeedItem(notification: Notification, userReads: seq<NotificationRead>, isRead: bool)

  function Item(n: Notification, rs: seq<NotificationRead>, userId: UserId): FeedItem
  {
    var own := ReadsBy(rs, n.id, userId);
    FeedItem(n, own, |own| > 0)
  }

  function Items(ns: seq<Notification>, rs: seq<NotificationRead>, userId: UserId): (r: seq<FeedItem>)
    ensures |r| == |ns|
    ensures forall i :: 0 <= i < |ns| ==> r[i].notification == ns[i]
  {
    seq(|ns|, i requires 0 <= i < |ns| => Item(ns[i], rs, userId))
  }

  function NotificationsOf(items: seq<FeedItem>): (r: seq<Notification>)
    ensures |r| == |items|
  {
    seq(|items|, i requires 0 <= i < |items| => items[i].notification)
  }

  /** `ORDER BY priority DESC, created_at DESC`: `a` may come before `b`. */
  predicate FeedBefore(a: Notification, b: Notification)
  {
    || PriorityCode(a.priority) > PriorityCode(b.priority)
    || (PriorityCode(a.priority) == PriorityCode(b.priority) && a.createdAt >= b.createdAt)
  }

  lemma FeedOrderIsTotalPreorder()
    ensures TotalPreorder(FeedBefore)
  {
  }

  /** The feed of one kind for a resolved user. */
  function Feed(db: Db, userId: UserId, roleId: RoleId, t: NotificationType): seq<FeedItem>
  {
    FeedOrderIsTotalPreorder();
    Items(SortBy(Where(db.notifications, FeedCondition(userId, roleId, t)), FeedBefore), db.readRecords, userId)
  }

  /**
   * What a feed of kind `t` is: the visible notifications of that kind, each
   * exactly as often as it is stored, most urgent first and newest first
   * among equals, each with the user's reads and `isRead` set exactly when
   * the user has a read of it.
   */
  ghost predicate IsFeed(items: seq<FeedItem>, db: Db, userId: UserId, roleId: RoleId, t: NotificationType)
  {
    && Sorted(NotificationsOf(items), FeedBefore)
    && (forall n :: multiset(NotificationsOf(items))[n] ==
          if Visible(n, userId, roleId) && n.notificationType == t then multiset(db.notifications)[n] else 0)
    && (forall i :: 0 <= i < |items| ==>
          && items[i].userReads == ReadsBy(db.readRecords, items[i].notification.id, userId)
          && (items[i].isRead <==> HasRead(db.readRecords, items[i].notification.id, userId)))
  }

  lemma FeedMeetsSpecification(db: Db, userId: UserId, roleId: RoleId, t: NotificationType)
    ensures IsFeed(Feed(db, userId, roleId, t), db, userId, roleId, t)
  {
    FeedOrderIsTotalPreorder();
    var selected := Where(db.notifications, FeedCondition(userId, roleId, t));
    var sorted := SortBy(selected, FeedBefore);
    var items := Feed(db, userId, roleId, t);
    assert NotificationsOf(items) == sorted;
    forall n
      ensures multiset(sorted)[n] ==
        if Visible(n, userId, roleId) && n.notificationType == t then multiset(db.notifications)[n] else 0
    {
      FeedConditionSelects(n, userId, roleId, t);
    }
  }

  /** `fetchUserStandardNotifications`: the NOTIFICATION feed of the caller. */
  function FetchUserStandardNotifications(db: Db, session: Option<UserId>): (r: Result<seq<FeedItem>>)
    ensures r.Err? <==> CurrentUser(db.directory, session).Err?
    ensures r.Err? ==> r.failure == CurrentUser(db.directory, session).failure
    ensures r.Ok? ==> IsFeed(r.value, db, session.value, RoleOf(db.directory, session.value).value, Standard)
  {
    match CurrentUser(db.directory, session)
    case Err(f) => Err(f)
    case Ok((userId, roleId)) =>
      FeedMeetsSpecification(db, userId, roleId, Standard);
      Ok(Feed(db, userId, roleId, Standard))
  }

  /** `fetchUserMessages`: the MESSAGE feed of the caller. */
  function FetchUserMessages(db: Db, session: Option<UserId>): (r: Result<seq<FeedItem>>)
    ensures r.Err? <==> CurrentUser(db.directory, session).Err?
    ensures r.Err? ==> r.failure == CurrentUser(db.directory, session).failure
    ensures r.Ok? ==> IsFeed(r.value, db, session.value, RoleOf(db.directory, session.value).value, Message)
  {
    match CurrentUser(db.directory, session)
    case Err(f) => Err(f)
    case Ok((userId, roleId)) =>
      FeedMeetsSpecification(db, userId, roleId, Message);
      Ok(Feed(db, userId, roleId, Message))
  }

  // ---------------------------------------------------------------- counting

  /** The rows the count and mark-all look at, in table order. */
  function Candidates(db: Db, userId: UserId, roleId: RoleId, t: Option<NotificationType>): seq<Notification>
  {
    Where(db.notifications, OptionalTypeCondition(userId, roleId, t))
  }

  /** `.filter(reads.length === 0).length` over the candidates. */
  function UnreadCount(db: Db, userId: UserId, roleId: RoleId, t: Option<NotificationType>): nat
  {
    CountIf(Candidates(db, userId, roleId, t), Unread(db.readRecords, userId))
  }

  /** The reference reading: visible, of the requested type, and never read by the user. */
  function Pending(rs: seq<NotificationRead>, userId: UserId, roleId: RoleId, t: Option<NotificationType>): Notification -> bool
  {
    (n: Notification) => Visible(n, userId, roleId) && OfType(n, t) && !HasRead(rs, n.id, userId)
  }

  lemma {:induction false} CountOverWhere(ns: seq<Notification>, c: Condition, p: Notification -> bool, q: Notification -> bool)
    requires forall n :: q(n) == (Selects(c, n) && p(n))
    ensures CountIf(Where(ns, c), p) == CountIf(ns, q)
  {
    if ns != [] {
      CountOverWhere(ns[1..], c, p, q);
    }
  }

  /** The unread count is the number of stored notifications the user still has to read. */
  lemma UnreadCountIsPending(db: Db, userId: UserId, roleId: RoleId, t: Option<NotificationType>)
    ensures UnreadCount(db, userId, roleId, t) == CountIf(db.notifications, Pending(db.readRecords, userId, roleId, t))
  {
    var c := OptionalTypeCondition(userId, roleId, t);
    forall n ensures Pending(db.readRecords, userId, roleId, t)(n) == (Selects(c, n) && Unread(db.readRecords, userId)(n)) {
      OptionalTypeConditionSelects(n, userId, roleId, t);
    }
    CountOverWhere(db.notifications, c, Unread(db.readRecords, userId), Pending(db.readRecords, userId, roleId, t));
  }

  /** `countUnreadNotifications(type?)`. */
  function CountUnreadNotifications(db: Db, session: Option<UserId>, t: Option<NotificationType>): (r: Result<nat>)
    ensures r.Err? <==> CurrentUser(db.directory, session).Err?
    ensures r.Err? ==> r.failure == CurrentUser(db.directory, session).failure
    ensures r.Ok? ==>
      r.value == CountIf(db.notifications, Pending(db.readRecords, session.value, RoleOf(db.directory, session.value).value, t))
  {
    match CurrentUser(db.directory, session)
    case Err(f) => Err(f)
    case Ok((userId, roleId)) =>
      UnreadCountIsPending(db, userId, roleId, t);
      Ok(UnreadCount(db, userId, roleId, t))
  }

  function NotRead(): FeedItem -> bool
  {
    (item: FeedItem) => !item.isRead
  }

  lemma {:induction false} CountNotReadItems(items: seq<FeedItem>, rs: seq<NotificationRead>, userId: UserId)
    requires forall i :: 0 <= i < |items| ==> (items[i].isRead <==> HasRead(rs, items[i].notification.id, userId))
    ensures CountIf(items, NotRead()) == CountIf(NotificationsOf(items), Unread(rs, userId))
  {
    if items != [] {
      assert NotificationsOf(items)[1..] == NotificationsOf(items[1..]);
      CountNotReadItems(items[1..], rs, userId);
    }
  }

  /**
   * The count agrees with the feed: in ANY feed of kind `t` (whatever order
   * it gives to notifications of equal priority and time), the entries with
   * `isRead == false` are as many as the unread count for `t`.
   */
  lemma UnreadCountMatchesFeed(items: seq<FeedItem>, db: Db, userId: UserId, roleId: RoleId, t: NotificationType)
    requires IsFeed(items, db, userId, roleId, t)
    ensures CountIf(items, NotRead()) == UnreadCount(db, userId, roleId, Some(t))
  {
    var candidates := Candidates(db, userId, roleId, Some(t));
    CountNotReadItems(items, db.readRecords, userId);
    forall n ensures multiset(NotificationsOf(items))[n] == multiset(candidates)[n] {
      OptionalTypeConditionSelects(n, userId, roleId, Some(t));
    }
    assert multiset(NotificationsOf(items)) == multiset(candidates);
    CountIfPermutation(NotificationsOf(items), candidates, Unread(db.readRecords, userId));
  }

  /** The same agreement stated on the actions: the standard feed and the count of NOTIFICATION. */
  lemma CountAgreesWithStandardFeed(db: Db, session: Option<UserId>)
    requires FetchUserStandardNotifications(db, session).Ok?
    ensures CountUnreadNotifications(db, session, Some(Standard))
         == Ok(CountIf(FetchUserStandardNotifications(db, session).value, NotRead()))
  {
    var (userId, roleId) := CurrentUser(db.directory, session).value;
    UnreadCountMatchesFeed(FetchUserStandardNotifications(db, session).value, db, userId, roleId, Standard);
  }

  lemma CountAgreesWithMessageFeed(db: Db, session: Option<UserId>)
    requires FetchUserMessages(db, session).Ok?
    ensures CountUnreadNotifications(db, session, Some(Message))
         == Ok(CountIf(FetchUserMessages(db, session).value, NotRead()))
  {
    var (userId, roleId) := CurrentUser(db.directory, session).value;
    UnreadCountMatchesFeed(FetchUserMessages(db, session).value, db, userId, roleId, Message);
  }

  // ---------------------------------------------------------------- store invariants

  predicate ReadIdsDistinct(rs: seq<NotificationRead>)
  {
    forall i, j :: 0 <= i < j < |rs| ==> rs[i].id != rs[j].id
  }

  predicate NotificationExists(ns: seq<Notification>, notificationId: Id)
  {
    exists n :: n in ns && n.id == notificationId
  }

  /**
   * What the actions keep true of the tables: primary keys are distinct, every
   * identifier handed out so far is below the counter, and every read refers
   * to a stored notification.
   */
  ghost predicate WellFormed(db: Db)
  {
    && IdsDistinct(db.notifications)
    && ReadIdsDistinct(db.readRecords)
    && (forall n :: n in db.notifications ==> n.id < db.nextId)
    && (forall r :: r in db.readRecords ==> r.id < db.nextId && NotificationExists(db.notifications, r.notificationId))
  }

  /**
   * At most one read per (notification, user) pair.  The table declares no
   * such constraint; the mark-as-read actions maintain it when run one after
   * the other.
   */
  predicate OneReadPerPair(rs: seq<NotificationRead>)
  {
    forall i, j :: 0 <= i < j < |rs| ==>
      rs[i].notificationId != rs[j].notificationId || rs[i].userId != rs[j].userId
  }

  lemma {:induction false} ReadsByAppend(rs: seq<NotificationRead>, extra: seq<NotificationRead>, notificationId: Id, userId: UserId)
    ensures ReadsBy(rs + extra, notificationId, userId) == ReadsBy(rs, notificationId, userId) + ReadsBy(extra, notificationId, userId)
  {
    if rs == [] {
      assert rs + extra == extra;
    } else {
      assert (rs + extra)[1..] == rs[1..] + extra;
      ReadsByAppend(rs[1..], extra, notificationId, userId);
    }
  }

  /** With one read per pair, a user has at most one read of a notification. */
  lemma {:induction false} OneReadPerPairBoundsReads(rs: seq<NotificationRead>, notificationId: Id, userId: UserId)
    requires OneReadPerPair(rs)
    ensures |ReadsBy(rs, notificationId, userId)| <= 1
  {
    if rs != [] {
      assert OneReadPerPair(rs[1..]) by {
        forall i, j | 0 <= i < j < |rs[1..]|
          ensures rs[1..][i].notificationId != rs[1..][j].notificationId || rs[1..][i].userId != rs[1..][j].userId
        {
          assert rs[1..][i] == rs[i + 1] && rs[1..][j] == rs[j + 1];
        }
      }
      OneReadPerPairBoundsReads(rs[1..], notificationId, userId);
      if rs[0].notificationId == notificationId && rs[0].userId == userId {
        assert !HasRead(rs[1..], notificationId, userId);
      }
    }
  }

  lemma OneReadPerPairAppend(rs: seq<NotificationRead>, added: seq<NotificationRead>)
    requires OneReadPerPair(rs) && OneReadPerPair(added)
    requires forall x :: x in added ==> !HasRead(rs, x.notificationId, x.userId)
    ensures OneReadPerPair(rs + added)
  {
    var all := rs + added;
    forall i, j | 0 <= i < j < |all|
      ensures all[i].notificationId != all[j].notificationId || all[i].userId != all[j].userId
    {
      if i < |rs| && |rs| <= j {
        assert all[j] == added[j - |rs|] && all[i] == rs[i];
        assert all[j] in added;
      } else if |rs| <= i {
        assert all[i] == added[i - |rs|] && all[j] == added[j - |rs|];
      }
    }
  }

  // ---------------------------------------------------------------- publishers

  /** Inserts a row built by a publisher, stamped `now`, and advances the identifier counter. */
  function Publish(db: Db, row: NewNotification, now: int): (db': Db)
    requires row.id == db.nextId
    ensures db'.notifications == db.notifications + [StoredRow(row, now)]
    ensures db'.readRecords == db.readRecords && db'.directory == db.directory
    ensures WellFormed(db) ==> WellFormed(db')
    ensures WellFormed(db) ==> forall userId :: !HasRead(db'.readRecords, row.id, userId)
  {
    var db' := db.(notifications := db.notifications + [StoredRow(row, now)], nextId := db.nextId + 1);
    assert forall r :: r in db.readRecords && NotificationExists(db.notifications, r.notificationId)
                       ==> NotificationExists(db'.notifications, r.notificationId) by {
      forall r | r in db.readRecords && NotificationExists(db.notifications, r.notificationId)
        ensures NotificationExists(db'.notifications, r.notificationId)
      {
        var n :| n in db.notifications && n.id == r.notificationId;
        assert n in db'.notifications;
      }
    }
    db'
  }

  /** `createGlobalNotification`: never refused; stores a GLOBAL row with no target. */
  function CreateGlobalNotification(db: Db, title: string, message: string, now: int,
                                    t: NotificationType := Standard, p: Priority := Normal): (out: (Result<Id>, Db))
    ensures out.0 == Ok(db.nextId)
    ensures out.1.notifications == db.notifications + [Notification(db.nextId, title, message, Global, t, p, None, now)]
    ensures out.1.readRecords == db.readRecords && out.1.nextId == db.nextId + 1
  {
    (Ok(db.nextId), Publish(db, NewNotification(db.nextId, title, message, Some(Global), Some(t), Some(p), None), now))
  }

  /** `createRoleNotification`: refused with nothing written when the role does not exist. */
  function CreateRoleNotification(db: Db, roleId: RoleId, title: string, message: string, now: int,
                                  t: NotificationType := Standard, p: Priority := Normal): (out: (Result<Id>, Db))
    ensures !RoleExists(db.directory, roleId) ==> out == (Err(RoleNotFound), db)
    ensures RoleExists(db.directory, roleId) ==>
      && out.0 == Ok(db.nextId)
      && out.1.notifications == db.notifications + [Notification(db.nextId, title, message, Role, t, p, Some(roleId), now)]
      && out.1.readRecords == db.readRecords && out.1.nextId == db.nextId + 1
  {
    if !RoleExists(db.directory, roleId) then (Err(RoleNotFound), db)
    else (Ok(db.nextId), Publish(db, NewNotification(db.nextId, title, message, Some(Role), Some(t), Some(p), Some(roleId)), now))
  }

  /** `createUserNotification`: refused with nothing written when the user does not exist. */
  function CreateUserNotification(db: Db, userId: UserId, title: string, message: string, now: int,
                                  t: NotificationType := Standard, p: Priority := Normal): (out: (Result<Id>, Db))
    ensures !UserExists(db.directory, userId) ==> out == (Err(UserNotFound), db)
    ensures UserExists(db.directory, userId) ==>
      && out.0 == Ok(db.nextId)
      && out.1.notifications == db.notifications + [Notification(db.nextId, title, message, User, t, p, Some(userId), now)]
      && out.1.readRecords == db.readRecords && out.1.nextId == db.nextId + 1
  {
    if !UserExists(db.directory, userId) then (Err(UserNotFound), db)
    else (Ok(db.nextId), Publish(db, NewNotification(db.nextId, title, message, Some(User), Some(t), Some(p), Some(userId)), now))
  }

  /** `createUserMessage`: a user notification of type MESSAGE. */
  function CreateUserMessage(db: Db, userId: UserId, title: string, message: string, now: int,
                             p: Priority := Normal): (out: (Result<Id>, Db))
    ensures !UserExists(db.directory, userId) ==> out == (Err(UserNotFound), db)
    ensures UserExists(db.directory, userId) ==>
      && out.0 == Ok(db.nextId)
      && out.1.notifications == db.notifications + [Notification(db.nextId, title, message, User, Message, p, Some(userId), now)]
      && out.1.readRecords == db.readRecords && out.1.nextId == db.nextId + 1
  {
    CreateUserNotification(db, userId, title, message, now, Message, p)
  }

  /**
   * Every publisher keeps the store well formed, writes no read, and the new
   * notification starts unread for every user.
   */
  lemma PublishersKeepStoreWellFormed(db: Db, id: UserId, roleId: RoleId, title: string, message: string, now: int,
                                      t: NotificationType, p: Priority)
    requires WellFormed(db)
    ensures forall out :: out in [CreateGlobalNotification(db, title, message, now, t, p),
                                  CreateRoleNotification(db, roleId, title, message, now, t, p),
                                  CreateUserNotification(db, id, title, message, now, t, p),
                                  CreateUserMessage(db, id, title, message, now, p)] ==>
      && WellFormed(out.1)
      && out.1.readRecords == db.readRecords
      && (out.0.Ok? ==> forall u :: !HasRead(out.1.readRecords, out.0.value, u))
  {
  }

  /** A stored notification appears in a user's feed exactly when it is visible to them and of the feed's kind. */
  lemma FeedMembership(db: Db, userId: UserId, roleId: RoleId, t: NotificationType, n: Notification)
    ensures n in NotificationsOf(Feed(db, userId, roleId, t)) <==>
      n in db.notifications && Visible(n, userId, roleId) && n.notificationType == t
  {
    FeedMeetsSpecification(db, userId, roleId, t);
    assert n in NotificationsOf(Feed(db, userId, roleId, t)) <==> multiset(NotificationsOf(Feed(db, userId, roleId, t)))[n] > 0;
  }

  // ---------------------------------------------------------------- mark one as read

  datatype MarkOutcome = Marked | AlreadyRead   // `{ success: true }` and "Notifica già letta"

  /**
   * `markNotificationAsRead`: check that the notification exists, check for
   * an existing read by the caller, otherwise insert one.  The caller's role
   * is not looked up and visibility is not checked.
   */
  function MarkNotificationAsRead(db: Db, session: Option<UserId>, notificationId: Id, now: int): (out: (Result<MarkOutcome>, Db))
    ensures out.1.notifications == db.notifications && out.1.directory == db.directory
    ensures !Authenticated(session) ==> out == (Err(Unauthenticated), db)
    ensures Authenticated(session) && !NotificationExists(db.notifications, notificationId) ==> out == (Err(NotificationNotFound), db)
    ensures Authenticated(session) && NotificationExists(db.notifications, notificationId) ==>
      if HasRead(db.readRecords, notificationId, session.value) then out == (Ok(AlreadyRead), db)
      else out.0 == Ok(Marked) && out.1.nextId == db.nextId + 1 &&
           out.1.readRecords == db.readRecords + [NotificationRead(db.nextId, notificationId, session.value, now)]
  {
    if !Authenticated(session) then (Err(Unauthenticated), db)
    else if !NotificationExists(db.notifications, notificationId) then (Err(NotificationNotFound), db)
    else if HasRead(db.readRecords, notificationId, session.value) then (Ok(AlreadyRead), db)
    else
      (Ok(Marked), db.(readRecords := db.readRecords + [NotificationRead(db.nextId, notificationId, session.value, now)],
                       nextId := db.nextId + 1))
  }

  lemma MarkNotificationAsReadKeepsInvariants(db: Db, session: Option<UserId>, notificationId: Id, now: int)
    requires WellFormed(db)
    ensures WellFormed(MarkNotificationAsRead(db, session, notificationId, now).1)
    ensures OneReadPerPair(db.readRecords) ==> OneReadPerPair(MarkNotificationAsRead(db, session, notificationId, now).1.readRecords)
  {
    var (r, db') := MarkNotificationAsRead(db, session, notificationId, now);
    if r == Ok(Marked) && OneReadPerPair(db.readRecords) {
      OneReadPerPairAppend(db.readRecords, [NotificationRead(db.nextId, notificationId, session.value, now)]);
    }
  }

  /** Marking is idempotent: a second call reports "already read" and changes nothing. */
  lemma MarkNotificationAsReadIdempotent(db: Db, session: Option<UserId>, notificationId: Id, now: int, later: int)
    ensures var (r1, db1) := MarkNotificationAsRead(db, session, notificationId, now);
            var (r2, db2) := MarkNotificationAsRead(db1, session, notificationId, later);
            db2 == db1 && (r1.Ok? ==> r2 == Ok(AlreadyRead)) && (r1.Err? ==> r2 == r1)
  {
    var (r1, db1) := MarkNotificationAsRead(db, session, notificationId, now);
    if r1 == Ok(Marked) {
      var x := NotificationRead(db.nextId, notificationId, session.value, now);
      assert x in db1.readRecords;
    }
  }

  /** Starting from one read per pair, marking twice leaves exactly one read for the pair. */
  lemma MarkTwiceLeavesOneRead(db: Db, session: Option<UserId>, notificationId: Id, now: int, later: int)
    requires OneReadPerPair(db.readRecords)
    requires Authenticated(session) && NotificationExists(db.notifications, notificationId)
    ensures var db1 := MarkNotificationAsRead(db, session, notificationId, now).1;
            var db2 := MarkNotificationAsRead(db1, session, notificationId, later).1;
            |ReadsBy(db2.readRecords, notificationId, session.value)| == 1
  {
    var userId := session.value;
    MarkNotificationAsReadIdempotent(db, session, notificationId, now, later);
    var db1 := MarkNotificationAsRead(db, session, notificationId, now).1;
    if HasRead(db.readRecords, notificationId, userId) {
      OneReadPerPairBoundsReads(db.readRecords, notificationId, userId);
    } else {
      var x := NotificationRead(db.nextId, notificationId, userId, now);
      ReadsByAppend(db.readRecords, [x], notificationId, userId);
      assert ReadsBy([x], notificationId, userId) == [x];
    }
  }

  // ---------------------------------------------------------------- mark all as read

  /** Some notification of `ns` has id `id` and no read of it by the user. */
  ghost predicate UnreadAmong(ns: seq<Notification>, rs: seq<NotificationRead>, userId: UserId, id: Id)
  {
    exists n :: n in ns && n.id == id && !HasRead(rs, id, userId)
  }

  /** `filter(reads.length === 0).map(id)`: the ids of the candidates the user has not read. */
  function UnreadIds(ns: seq<Notification>, rs: seq<NotificationRead>, userId: UserId): (r: seq<Id>)
    ensures |r| == CountIf(ns, Unread(rs, userId))
    ensures forall id :: id in r <==> UnreadAmong(ns, rs, userId, id)
  {
    if ns == [] then []
    else
      var n := ns[0];
      var rest := UnreadIds(ns[1..], rs, userId);
      assert forall id :: UnreadAmong(ns, rs, userId, id) <==>
        (id == n.id && !HasRead(rs, id, userId)) || UnreadAmong(ns[1..], rs, userId, id) by {
        assert ns == [n] + ns[1..];
      }
      if |ReadsBy(rs, n.id, userId)| == 0 then [n.id] + rest else rest
  }

  lemma {:induction false} UnreadIdsDistinct(ns: seq<Notification>, rs: seq<NotificationRead>, userId: UserId)
    requires IdsDistinct(ns)
    ensures Distinct(UnreadIds(ns, rs, userId))
  {
    if ns != [] {
      var tail := ns[1..];
      assert IdsDistinct(tail) by {
        forall i, j | 0 <= i < j < |tail| ensures tail[i].id != tail[j].id {
          assert tail[i] == ns[i + 1] && tail[j] == ns[j + 1];
        }
      }
      UnreadIdsDistinct(tail, rs, userId);
      var rest := UnreadIds(tail, rs, userId);
      if |ReadsBy(rs, ns[0].id, userId)| == 0 {
        forall id | id in rest ensures id != ns[0].id {
          assert UnreadAmong(tail, rs, userId, id);
          var n :| n in tail && n.id == id && !HasRead(rs, id, userId);
          var k :| 0 <= k < |tail| && tail[k] == n;
          assert ns[k + 1] == n;
        }
        DistinctCons(ns[0].id, rest);
      }
    }
  }

  /** The ids mark-all writes reads for. */
  function ToMark(db: Db, userId: UserId, roleId: RoleId, t: Option<NotificationType>): seq<Id>
  {
    UnreadIds(Candidates(db, userId, roleId, t), db.readRecords, userId)
  }

  /** `id` is the id of a stored notification the user still has to read. */
  ghost predicate PendingId(db: Db, userId: UserId, roleId: RoleId, t: Option<NotificationType>, id: Id)
  {
    exists n :: n in db.notifications && n.id == id && Pending(db.readRecords, userId, roleId, t)(n)
  }

  /** Mark-all selects exactly the pending notifications, each once. */
  lemma ToMarkIsPending(db: Db, userId: UserId, roleId: RoleId, t: Option<NotificationType>)
    ensures forall id :: id in ToMark(db, userId, roleId, t) <==> PendingId(db, userId, roleId, t, id)
    ensures IdsDistinct(db.notifications) ==> Distinct(ToMark(db, userId, roleId, t))
  {
    var cands := Candidates(db, userId, roleId, t);
    forall id ensures id in ToMark(db, userId, roleId, t) <==> PendingId(db, userId, roleId, t, id) {
      if id in ToMark(db, userId, roleId, t) {
        var n :| n in cands && n.id == id && !HasRead(db.readRecords, id, userId);
        OptionalTypeConditionSelects(n, userId, roleId, t);
      }
      if PendingId(db, userId, roleId, t, id) {
        var n :| n in db.notifications && n.id == id && Pending(db.readRecords, userId, roleId, t)(n);
        OptionalTypeConditionSelects(n, userId, roleId, t);
        assert multiset(cands)[n] == multiset(db.notifications)[n] > 0;
        assert n in cands;
      }
    }
    if IdsDistinct(db.notifications) {
      WhereKeepsIdsDistinct(db.notifications, OptionalTypeCondition(userId, roleId, t));
      UnreadIdsDistinct(cands, db.readRecords, userId);
    }
  }

  /** The bulk insert `newReads`: one read per id, each with a fresh identifier. */
  function NewReads(ids: seq<Id>, userId: UserId, firstId: Id, now: int): (r: seq<NotificationRead>)
    ensures |r| == |ids|
    ensures forall i :: 0 <= i < |ids| ==> r[i] == NotificationRead(firstId + i, ids[i], userId, now)
  {
    seq(|ids|, i requires 0 <= i < |ids| => NotificationRead(firstId + i, ids[i], userId, now))
  }

  /** Some read in `rs` is of notification `id`. */
  predicate Covers(rs: seq<NotificationRead>, id: Id)
  {
    exists x :: x in rs && x.notificationId == id
  }

  lemma NewReadsFacts(ids: seq<Id>, userId: UserId, firstId: Id, now: int)
    ensures forall id :: Covers(NewReads(ids, userId, firstId, now), id) <==> id in ids
    ensures forall x :: x in NewReads(ids, userId, firstId, now) ==>
      x.userId == userId && firstId <= x.id < firstId + |ids| && x.notificationId in ids
    ensures ReadIdsDistinct(NewReads(ids, userId, firstId, now))
    ensures Distinct(ids) ==> OneReadPerPair(NewReads(ids, userId, firstId, now))
  {
    var r := NewReads(ids, userId, firstId, now);
    forall id ensures Covers(r, id) <==> id in ids {
      if id in ids {
        var k :| 0 <= k < |ids| && ids[k] == id;
        assert r[k] in r;
      }
    }
  }

  /** The reads mark-all inserts. */
  function MarkAllWrites(db: Db, userId: UserId, roleId: RoleId, t: Option<NotificationType>, now: int): seq<NotificationRead>
  {
    NewReads(ToMark(db, userId, roleId, t), userId, db.nextId, now)
  }

  /** Without `count` ("Nessuna notifica da leggere") or `{ count }` with a positive number. */
  datatype MarkAllOutcome = NothingToMark | MarkedCount(count: nat)

  /** Mark-all for an identified caller: nothing to mark, or one read per pending notification. */
  function MarkAllFor(db: Db, userId: UserId, roleId: RoleId, t: Option<NotificationType>, now: int)
    : (out: (MarkAllOutcome, Db))
    ensures out.1.notifications == db.notifications && out.1.directory == db.directory
    ensures out.0.NothingToMark? <==> out.1 == db
    ensures out.0.MarkedCount? ==> out.0.count > 0
    ensures out.0.MarkedCount? ==> |out.1.readRecords| == |db.readRecords| + out.0.count
  {
    var toMark := ToMark(db, userId, roleId, t);
    if |toMark| == 0 then (NothingToMark, db)
    else
      var writes := MarkAllWrites(db, userId, roleId, t, now);
      assert |db.readRecords + writes| > |db.readRecords|;
      (MarkedCount(|toMark|),
       db.(readRecords := db.readRecords + writes, nextId := db.nextId + |toMark|))
  }

  /** `markAllNotificationsAsRead(type?)`. */
  function MarkAllNotificationsAsRead(db: Db, session: Option<UserId>, t: Option<NotificationType>, now: int)
    : (out: (Result<MarkAllOutcome>, Db))
    ensures out.1.notifications == db.notifications && out.1.directory == db.directory
    ensures out.0.Err? <==> CurrentUser(db.directory, session).Err?
    ensures out.0.Err? ==> out.1 == db && out.0.failure == CurrentUser(db.directory, session).failure
    ensures out.0 == Ok(NothingToMark) ==> out.1 == db
    ensures out.0.Ok? && out.0.value.MarkedCount? ==> out.0.value.count > 0
    ensures out.0.Ok? && out.0.value.MarkedCount? ==> |out.1.readRecords| == |db.readRecords| + out.0.value.count
  {
    match CurrentUser(db.directory, session)
    case Err(f) => (Err(f), db)
    case Ok((userId, roleId)) =>
      var marked := MarkAllFor(db, userId, roleId, t, now);
      (Ok(marked.0), marked.1)
  }

  /** Mark-all for an identified caller is mark-all for that user and role. */
  lemma MarkAllUnfolds(db: Db, session: Option<UserId>, t: Option<NotificationType>, now: int, userId: UserId, roleId: RoleId)
    requires CurrentUser(db.directory, session) == Ok((userId, roleId))
    ensures MarkAllNotificationsAsRead(db, session, t, now) ==
              (Ok(MarkAllFor(db, userId, roleId, t, now).0), MarkAllFor(db, userId, roleId, t, now).1)
  {
  }

  /** Mark-all for one user spelt out step by step, for the store that runs it in place. */
  lemma MarkAllForUnfolds(db: Db, userId: UserId, roleId: RoleId, t: Option<NotificationType>, now: int)
    ensures var toMark := ToMark(db, userId, roleId, t);
            MarkAllFor(db, userId, roleId, t, now) ==
              if |toMark| == 0 then (NothingToMark, db)
              else (MarkedCount(|toMark|),
                    db.(readRecords := db.readRecords + MarkAllWrites(db, userId, roleId, t, now), nextId := db.nextId + |toMark|))
  {
  }

  /** The number mark-all reports is the unread count it found (none reported as nothing to mark). */
  lemma MarkAllReportsUnreadCount(db: Db, session: Option<UserId>, t: Option<NotificationType>, now: int)
    ensures var r := MarkAllNotificationsAsRead(db, session, t, now).0;
            r.Ok? ==> CountUnreadNotifications(db, session, t) == Ok(if r.value.MarkedCount? then r.value.count else 0)
  {
  }

  /**
   * The reads mark-all appends are the caller's, one for each visible,
   * type-matching notification they had not read, and for no other.
   */
  lemma MarkAllAppendsPendingReads(db: Db, session: Option<UserId>, t: Option<NotificationType>, now: int)
    requires IdsDistinct(db.notifications)
    requires CurrentUser(db.directory, session).Ok?
    ensures var (userId, roleId) := CurrentUser(db.directory, session).value;
            var added := MarkAllWrites(db, userId, roleId, t, now);
            && MarkAllNotificationsAsRead(db, session, t, now).1.readRecords == db.readRecords + added
            && (forall x :: x in added ==> x.userId == userId)
            && (forall id :: Covers(added, id) <==> PendingId(db, userId, roleId, t, id))
            && OneReadPerPair(added)
  {
    var (userId, roleId) := CurrentUser(db.directory, session).value;
    var toMark := ToMark(db, userId, roleId, t);
    ToMarkIsPending(db, userId, roleId, t);
    NewReadsFacts(toMark, userId, db.nextId, now);
    if |toMark| == 0 {
      assert MarkAllWrites(db, userId, roleId, t, now) == [];
      assert db.readRecords + [] == db.readRecords;
    }
  }

  /** After the writes of mark-all, the caller has read every candidate notification. */
  lemma MarkAllReadsCandidate(db: Db, userId: UserId, roleId: RoleId, t: Option<NotificationType>, now: int, n: Notification)
    requires n in Candidates(db, userId, roleId, t)
    ensures HasRead(db.readRecords + MarkAllWrites(db, userId, roleId, t, now), n.id, userId)
  {
    var all := db.readRecords + MarkAllWrites(db, userId, roleId, t, now);
    if HasRead(db.readRecords, n.id, userId) {
      var x :| x in db.readRecords && x.notificationId == n.id && x.userId == userId;
      assert x in all;
    } else {
      var toMark := ToMark(db, userId, roleId, t);
      assert UnreadAmong(Candidates(db, userId, roleId, t), db.readRecords, userId, n.id);
      var k :| 0 <= k < |toMark| && toMark[k] == n.id;
      assert MarkAllWrites(db, userId, roleId, t, now)[k] in all;
    }
  }

  /** Right after mark-all, the unread count for the same type is 0. */
  lemma MarkAllClearsUnread(db: Db, session: Option<UserId>, t: Option<NotificationType>, now: int)
    requires CurrentUser(db.directory, session).Ok?
    ensures CountUnreadNotifications(MarkAllNotificationsAsRead(db, session, t, now).1, session, t) == Ok(0)
  {
    var (userId, roleId) := CurrentUser(db.directory, session).value;
    var cands := Candidates(db, userId, roleId, t);
    var db1 := MarkAllNotificationsAsRead(db, session, t, now).1;
    MarkAllUnfolds(db, session, t, now, userId, roleId);
    MarkAllForUnfolds(db, userId, roleId, t, now);
    assert Candidates(db1, userId, roleId, t) == cands;
    if |ToMark(db, userId, roleId, t)| > 0 {
      assert db1.readRecords == db.readRecords + MarkAllWrites(db, userId, roleId, t, now);
      forall i | 0 <= i < |cands| ensures !Unread(db1.readRecords, userId)(cands[i]) {
        MarkAllReadsCandidate(db, userId, roleId, t, now, cands[i]);
      }
    }
  }

  /** A second mark-all in a row finds nothing to mark and writes nothing. */
  lemma MarkAllTwiceMarksNothing(db: Db, session: Option<UserId>, t: Option<NotificationType>, now: int, later: int)
    ensures var db1 := MarkAllNotificationsAsRead(db, session, t, now).1;
            var second := MarkAllNotificationsAsRead(db1, session, t, later);
            second.1 == db1 && (CurrentUser(db.directory, session).Ok? ==> second.0 == Ok(NothingToMark))
  {
    if CurrentUser(db.directory, session).Ok? {
      MarkAllClearsUnread(db, session, t, now);
      var db1 := MarkAllNotificationsAsRead(db, session, t, now).1;
      MarkAllReportsUnreadCount(db1, session, t, later);
    }
  }

  /** Appending reads with fresh identifiers of stored notifications keeps the store well formed. */
  lemma AppendReadsKeepsWellFormed(db: Db, added: seq<NotificationRead>, k: nat)
    requires WellFormed(db)
    requires ReadIdsDistinct(added)
    requires forall x :: x in added ==>
      db.nextId <= x.id < db.nextId + k && NotificationExists(db.notifications, x.notificationId)
    ensures WellFormed(db.(readRecords := db.readRecords + added, nextId := db.nextId + k))
  {
    var all := db.readRecords + added;
    forall i, j | 0 <= i < j < |all| ensures all[i].id != all[j].id {
      if j >= |db.readRecords| {
        assert all[j] == added[j - |db.readRecords|];
        if i < |db.readRecords| {
          assert all[i] in db.readRecords;
        } else {
          assert all[i] == added[i - |db.readRecords|];
        }
      }
    }
  }

  lemma MarkAllKeepsInvariants(db: Db, session: Option<UserId>, t: Option<NotificationType>, now: int)
    requires WellFormed(db)
    ensures WellFormed(MarkAllNotificationsAsRead(db, session, t, now).1)
    ensures OneReadPerPair(db.readRecords) ==> OneReadPerPair(MarkAllNotificationsAsRead(db, session, t, now).1.readRecords)
  {
    var (r, db1) := MarkAllNotificationsAsRead(db, session, t, now);
    if r.Ok? && r.value.MarkedCount? {
      var (userId, roleId) := CurrentUser(db.directory, session).value;
      var toMark := ToMark(db, userId, roleId, t);
      var added := MarkAllWrites(db, userId, roleId, t, now);
      ToMarkIsPending(db, userId, roleId, t);
      NewReadsFacts(toMark, userId, db.nextId, now);
      assert db1 == db.(readRecords := db.readRecords + added, nextId := db.nextId + |toMark|);
      forall x | x in added
        ensures NotificationExists(db.notifications, x.notificationId)
        ensures !HasRead(db.readRecords, x.notificationId, x.userId)
      {
        assert PendingId(db, userId, roleId, t, x.notificationId);
      }
      AppendReadsKeepsWellFormed(db, added, |toMark|);
      if OneReadPerPair(db.readRecords) {
        OneReadPerPairAppend(db.readRecords, added);
      }
    }
  }
}
