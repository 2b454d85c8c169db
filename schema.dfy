/**
 * The notification tables: the three enumerations stored as `tinyint`
 * columns, the row shape of `notifications` and of `notification_reads`,
 * and the column defaults that apply when an insert omits a field.
 *
 * Identifiers produced by `createId()` are modelled as natural numbers
 * handed out by a counter (see NotificationStore); user and role ids are
 * strings.
 */
module Schema {
  import opened Accounts

  /** Audience of a notification. */
  datatype TargetType = Global | Role | User

  /** Kind of a notification: a standard notification or a direct message. */
  datatype NotificationType = Standard | Message

  datatype Priority = Low | Normal | High | Urgent

  type Id = nat

  /** The stored `tinyint` codes. */
  function TargetTypeCode(t: TargetType): (c: nat)
    ensures c <= 2
  {
    match t
    case Global => 0
    case Role => 1
    case User => 2
  }

  function TypeCode(t: NotificationType): (c: nat)
    ensures c <= 1
  {
    match t
    case Standard => 0
    case Message => 1
  }

  function PriorityCode(p: Priority): (c: nat)
    ensures c <= 3
  {
    match p
    case Low => 0
    case Normal => 1
    case High => 2
    case Urgent => 3
  }

  /** Reading a stored code back; codes outside the enumeration have no value. */
  function TargetTypeFromCode(c: int): (r: Option<TargetType>)
    ensures r.Some? <==> 0 <= c <= 2
    ensures r.Some? ==> TargetTypeCode(r.value) == c
  {
    if c == 0 then Some(Global) else if c == 1 then Some(Role) else if c == 2 then Some(User) else None
  }

  function TypeFromCode(c: int): (r: Option<NotificationType>)
    ensures r.Some? <==> 0 <= c <= 1
    ensures r.Some? ==> TypeCode(r.value) == c
  {
    if c == 0 then Some(Standard) else if c == 1 then Some(Message) else None
  }

  function PriorityFromCode(c: int): (r: Option<Priority>)
    ensures r.Some? <==> 0 <= c <= 3
    ensures r.Some? ==> PriorityCode(r.value) == c
  {
    if c == 0 then Some(Low) else if c == 1 then Some(Normal)
    else if c == 2 then Some(High) else if c == 3 then Some(Urgent) else None
  }

  /** Every enumeration value survives a store-and-load through its code. */
  lemma CodesRoundTrip(t: TargetType, k: NotificationType, p: Priority)
    ensures TargetTypeFromCode(TargetTypeCode(t)) == Some(t)
    ensures TypeFromCode(TypeCode(k)) == Some(k)
    ensures PriorityFromCode(PriorityCode(p)) == Some(p)
  {
  }

  /** Distinct values have distinct codes, so comparing codes compares values. */
  lemma CodesInjective(t1: TargetType, t2: TargetType, k1: NotificationType, k2: NotificationType,
                       p1: Priority, p2: Priority)
    ensures TargetTypeCode(t1) == TargetTypeCode(t2) <==> t1 == t2
    ensures TypeCode(k1) == TypeCode(k2) <==> k1 == k2
    ensures PriorityCode(p1) == PriorityCode(p2) <==> p1 == p2
  {
  }

  /** LOW < NORMAL < HIGH < URGENT: a larger code is a more urgent notification. */
  lemma PriorityCodesStrictlyOrdered()
    ensures PriorityCode(Low) < PriorityCode(Normal) < PriorityCode(High) < PriorityCode(Urgent)
  {
  }

  /** A row of `notifications`; `targetId` is NULL for global notifications. */
  datatype Notification = Notification(
    id: Id,
    title: string,
    message: string,
    targetType: TargetType,
    notificationType: NotificationType,
    priority: Priority,
    targetId: Option<string>,
    createdAt: int)

  /** A row of `notification_reads`: the existence of a row is what "read" means. */
  datatype NotificationRead = NotificationRead(
    id: Id,
    notificationId: Id,
    userId: UserId,
    readAt: int)

  /** An insert into `notifications`: the fields with a column default may be omitted. */
  datatype NewNotification = NewNotification(
    id: Id,
    title: string,
    message: string,
    targetType: Option<TargetType>,
    notificationType: Option<NotificationType>,
    priority: Option<Priority>,
    targetId: Option<string>)

  function GetOr<T>(o: Option<T>, default: T): T
  {
    match o
    case Some(v) => v
    case None => default
  }

  /** The row the database stores for an insert made at time `now`. */
  function StoredRow(n: NewNotification, now: int): (row: Notification)
    ensures row.id == n.id && row.title == n.title && row.message == n.message
    ensures row.targetId == n.targetId && row.createdAt == now
    ensures n.targetType.Some? ==> row.targetType == n.targetType.value
    ensures n.notificationType.Some? ==> row.notificationType == n.notificationType.value
    ensures n.priority.Some? ==> row.priority == n.priority.value
  {
    Notification(n.id, n.title, n.message,
                 GetOr(n.targetType, Global),
                 GetOr(n.notificationType, Standard),
                 GetOr(n.priority, Normal),
                 n.targetId, now)
  }

  /** Omitted fields take the column defaults GLOBAL, NOTIFICATION, NORMAL and NULL. */
  lemma OmittedFieldsTakeDefaults(id: Id, title: string, message: string, now: int)
    ensures StoredRow(NewNotification(id, title, message, None, None, None, None), now)
         == Notification(id, title, message, Global, Standard, Normal, None, now)
  {
  }
}
