/**
 * The writing actions run against one store object whose tables grow in
 * place.  Each method changes the tables exactly as the corresponding
 * transition of the Notifications module does, so every property proved
 * there about the transition holds of the method, and each keeps the
 * store well formed.
 */
module NotificationStore {
  import opened Accounts
  import opened Schema
  import Notifications

  class Store {
    var notifications: seq<Notification>
    var readRecords: seq<NotificationRead>
    /** The next identifier `createId()` will hand out. */
    var nextId: Id
    /** Users and roles; the notification actions never change them. */
    const directory: Directory

    function Snapshot(): (db: Notifications.Db)
      reads this
    {
      Notifications.Db(notifications, readRecords, directory, nextId)
    }

    ghost predicate Valid()
      reads this
    {
      Notifications.WellFormed(Snapshot()) && Notifications.OneReadPerPair(readRecords)
    }

    /** Empty notification tables over a given directory. */
    constructor (dir: Directory)
      ensures Valid()
      ensures Snapshot() == Notifications.Db([], [], dir, 0)
    {
      notifications := [];
      readRecords := [];
      nextId := 0;
      directory := dir;
    }

    /** Inserts `row` into `notifications`; the database fills in the defaults and `createdAt`. */
    method Insert(row: NewNotification, now: int)
      requires Valid() && row.id == nextId
      modifies this
      ensures Valid()
      ensures Snapshot() == Notifications.Publish(old(Snapshot()), row, now)
    {
      notifications := notifications + [StoredRow(row, now)];
      nextId := nextId + 1;
    }

    method CreateGlobalNotification(title: string, message: string, now: int,
                                    t: NotificationType := Standard, p: Priority := Normal)
      returns (r: Notifications.Result<Id>)
      requires Valid()
      modifies this
      ensures Valid()
      ensures (r, Snapshot()) == Notifications.CreateGlobalNotification(old(Snapshot()), title, message, now, t, p)
    {
      var id := nextId;
      Insert(NewNotification(id, title, message, Some(Global), Some(t), Some(p), None), now);
      r := Notifications.Ok(id);
    }

    method CreateRoleNotification(roleId: RoleId, title: string, message: string, now: int,
                                  t: NotificationType := Standard, p: Priority := Normal)
      returns (r: Notifications.Result<Id>)
      requires Valid()
      modifies this
      ensures Valid()
      ensures (r, Snapshot()) == Notifications.CreateRoleNotification(old(Snapshot()), roleId, title, message, now, t, p)
    {
      if !RoleExists(directory, roleId) {
        return Notifications.Err(Notifications.RoleNotFound);
      }
      var id := nextId;
      Insert(NewNotification(id, title, message, Some(Role), Some(t), Some(p), Some(roleId)), now);
      r := Notifications.Ok(id);
    }

    method CreateUserNotification(userId: UserId, title: string, message: string, now: int,
                                  t: NotificationType := Standard, p: Priority := Normal)
      returns (r: Notifications.Result<Id>)
      requires Valid()
      modifies this
      ensures Valid()
      ensures (r, Snapshot()) == Notifications.CreateUserNotification(old(Snapshot()), userId, title, message, now, t, p)
    {
      if !UserExists(directory, userId) {
        return Notifications.Err(Notifications.UserNotFound);
      }
      var id := nextId;
      Insert(NewNotification(id, title, message, Some(User), Some(t), Some(p), Some(userId)), now);
      r := Notifications.Ok(id);
    }

    method CreateUserMessage(userId: UserId, title: string, message: string, now: int, p: Priority := Normal)
      returns (r: Notifications.Result<Id>)
      requires Valid()
      modifies this
      ensures Valid()
      ensures (r, Snapshot()) == Notifications.CreateUserMessage(old(Snapshot()), userId, title, message, now, p)
    {
      r := CreateUserNotification(userId, title, message, now, Message, p);
    }

    method MarkNotificationAsRead(session: Option<UserId>, notificationId: Id, now: int)
      returns (r: Notifications.Result<Notifications.MarkOutcome>)
      requires Valid()
      modifies this
      ensures Valid()
      ensures (r, Snapshot()) == Notifications.MarkNotificationAsRead(old(Snapshot()), session, notificationId, now)
    {
      Notifications.MarkNotificationAsReadKeepsInvariants(Snapshot(), session, notificationId, now);
      if !Authenticated(session) {
        return Notifications.Err(Notifications.Unauthenticated);
      }
      if !Notifications.NotificationExists(notifications, notificationId) {
        return Notifications.Err(Notifications.NotificationNotFound);
      }
      if Notifications.HasRead(readRecords, notificationId, session.value) {
        return Notifications.Ok(Notifications.AlreadyRead);
      }
      readRecords := readRecords + [NotificationRead(nextId, notificationId, session.value, now)];
      nextId := nextId + 1;
      r := Notifications.Ok(Notifications.Marked);
    }

    /** The bulk insert of mark-all, one read per id, each taking the next identifier. */
    method InsertReads(ids: seq<Id>, userId: UserId, now: int)
      modifies this
      ensures notifications == old(notifications)
      ensures readRecords == old(readRecords) + Notifications.NewReads(ids, userId, old(nextId), now)
      ensures nextId == old(nextId) + |ids|
    {
      var i := 0;
      while i < |ids|
        invariant 0 <= i <= |ids|
        invariant notifications == old(notifications)
        invariant nextId == old(nextId) + i
        invariant readRecords == old(readRecords) + Notifications.NewReads(ids[..i], userId, old(nextId), now)
      {
        assert Notifications.NewReads(ids[..i + 1], userId, old(nextId), now)
            == Notifications.NewReads(ids[..i], userId, old(nextId), now) + [NotificationRead(nextId, ids[i], userId, now)];
        readRecords := readRecords + [NotificationRead(nextId, ids[i], userId, now)];
        nextId := nextId + 1;
        i := i + 1;
      }
      assert ids[..i] == ids;
    }

    method MarkAllNotificationsAsRead(session: Option<UserId>, t: Option<NotificationType>, now: int)
      returns (r: Notifications.Result<Notifications.MarkAllOutcome>)
      requires Valid()
      modifies this
      ensures Valid()
      ensures (r, Snapshot()) == Notifications.MarkAllNotificationsAsRead(old(Snapshot()), session, t, now)
    {
      ghost var before := old(Snapshot());
      Notifications.MarkAllKeepsInvariants(before, session, t, now);
      var user := Notifications.CurrentUser(directory, session);
      if user.Err? {
        r := Notifications.Err(user.failure);
        assert (r, Snapshot()) == Notifications.MarkAllNotificationsAsRead(before, session, t, now);
        return;
      }
      var (userId, roleId) := user.value;
      Notifications.MarkAllUnfolds(before, session, t, now, userId, roleId);
      Notifications.MarkAllForUnfolds(before, userId, roleId, t, now);
      var toMark := Notifications.ToMark(Snapshot(), userId, roleId, t);
      assert Snapshot() == before;
      ghost var expected := Notifications.MarkAllFor(before, userId, roleId, t, now);
      ghost var writes := Notifications.MarkAllWrites(before, userId, roleId, t, now);
      assert writes == Notifications.NewReads(toMark, userId, nextId, now);
      if |toMark| == 0 {
        r := Notifications.Ok(Notifications.NothingToMark);
        assert (r, Snapshot()) == Notifications.MarkAllNotificationsAsRead(before, session, t, now);
        return;
      }
      InsertReads(toMark, userId, now);
      assert Snapshot() == before.(readRecords := before.readRecords + writes, nextId := before.nextId + |toMark|);
      r := Notifications.Ok(Notifications.MarkedCount(|toMark|));
      assert toMark == Notifications.ToMark(before, userId, roleId, t);
      assert expected.0 == Notifications.MarkedCount(|toMark|);
      assert expected.1 == before.(readRecords := before.readRecords + writes, nextId := before.nextId + |toMark|);
      assert expected.1 == Snapshot();
    }
  }
}
