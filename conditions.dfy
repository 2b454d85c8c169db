/**
 * The query conditions the notification actions compose with drizzle's
 * `eq`, `and` and `or`, and how the database evaluates them in a WHERE
 * clause: SQL's three-valued logic, in which a comparison with a NULL
 * column is UNKNOWN and only rows whose condition is TRUE are returned.
 */
module Conditions {
  import opened Accounts
  import opened Schema

  /** The columns of `notifications` that the actions filter on. */
  datatype Column = TargetTypeColumn | TargetIdColumn | TypeColumn

  datatype SqlValue = IntValue(i: int) | StringValue(s: string)

  datatype Condition =
    | Eq(column: Column, value: SqlValue)
    | And(left: Condition, right: Condition)
    | Or(left: Condition, right: Condition)

  datatype Truth = TRUE | FALSE | UNKNOWN

  /** The value a row holds in a column; `None` is SQL NULL. */
  function ColumnValue(n: Notification, c: Column): Option<SqlValue>
  {
    match c
    case TargetTypeColumn => Some(IntValue(TargetTypeCode(n.targetType)))
    case TypeColumn => Some(IntValue(TypeCode(n.notificationType)))
    case TargetIdColumn =>
      match n.targetId
      case Some(s) => Some(StringValue(s))
      case None => None
  }

  /** SQL evaluation of a condition on one row (Kleene's three-valued AND and OR). */
  function Eval(c: Condition, n: Notification): Truth
  {
    match c
    case Eq(col, v) =>
      (match ColumnValue(n, col)
       case None => UNKNOWN
       case Some(x) => if x == v then TRUE else FALSE)
    case And(l, r) =>
      var a, b := Eval(l, n), Eval(r, n);
      if a == FALSE || b == FALSE then FALSE
      else if a == TRUE && b == TRUE then TRUE
      else UNKNOWN
    case Or(l, r) =>
      var a, b := Eval(l, n), Eval(r, n);
      if a == TRUE || b == TRUE then TRUE
      else if a == FALSE && b == FALSE then FALSE
      else UNKNOWN
  }

  /** A WHERE clause keeps a row exactly when its condition evaluates to TRUE. */
  predicate Selects(c: Condition, n: Notification)
  {
    Eval(c, n) == TRUE
  }

  /** The two-valued reading in which a comparison with NULL is simply false. */
  predicate Holds(c: Condition, n: Notification)
  {
    match c
    case Eq(col, v) => ColumnValue(n, col) == Some(v)
    case And(l, r) => Holds(l, n) && Holds(r, n)
    case Or(l, r) => Holds(l, n) || Holds(r, n)
  }

  /**
   * Conditions built from `eq`, `and` and `or` alone contain no negation, so
   * a row is selected exactly when the two-valued reading holds: UNKNOWN
   * never turns into TRUE.
   */
  lemma {:induction false} SelectsIffHolds(c: Condition, n: Notification)
    ensures Selects(c, n) <==> Holds(c, n)
  {
    match c
    case Eq(_, _) =>
    case And(l, r) =>
      SelectsIffHolds(l, n);
      SelectsIffHolds(r, n);
    case Or(l, r) =>
      SelectsIffHolds(l, n);
      SelectsIffHolds(r, n);
  }

  /**
   * The audience condition repeated by every reader of the table: GLOBAL, or
   * ROLE addressed to the user's role, or USER addressed to the user.
   */
  function AudienceCondition(userId: UserId, roleId: RoleId): Condition
  {
    Or(Or(Eq(TargetTypeColumn, IntValue(TargetTypeCode(Global))),
          And(Eq(TargetTypeColumn, IntValue(TargetTypeCode(Role))),
              Eq(TargetIdColumn, StringValue(roleId)))),
       And(Eq(TargetTypeColumn, IntValue(TargetTypeCode(User))),
           Eq(TargetIdColumn, StringValue(userId))))
  }

  function TypeCondition(t: NotificationType): Condition
  {
    Eq(TypeColumn, IntValue(TypeCode(t)))
  }

  /** The condition of the two feeds: the type first, then the audience. */
  function FeedCondition(userId: UserId, roleId: RoleId, t: NotificationType): Condition
  {
    And(TypeCondition(t), AudienceCondition(userId, roleId))
  }

  /** The condition of mark-all and of the unread count: the audience, then the optional type. */
  function OptionalTypeCondition(userId: UserId, roleId: RoleId, t: Option<NotificationType>): Condition
  {
    match t
    case None => AudienceCondition(userId, roleId)
    case Some(k) => And(AudienceCondition(userId, roleId), TypeCondition(k))
  }
}
