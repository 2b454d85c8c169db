# Notifications and role menus, modelled in Dafny

This project models two parts of a back-office application.

**The notification engine** (`src/lib/notifications/actions.ts` over the
tables of `src/lib/db/schema/notifications.ts`). Each notification targets
one audience: every user (`GLOBAL`), the members of one role (`ROLE`), or
one user (`USER`). Each user records on their own which notifications they
have read, with one row in `notification_reads`. The model covers:

- the visibility rule, and the drizzle `where` conditions that encode it, with SQL's three-valued logic;
- the two feeds (standard notifications and messages): visible notifications of one type, ordered by priority and then by creation time, newest first, each flagged as read or unread;
- the unread count, with an optional type filter;
- marking one notification as read, and marking all of them as read;
- the four publishers.

The pure parts are functions over a snapshot `Db` of the tables
(module `Notifications`). The writing actions are also methods of a `Store`
class whose table fields they update in place (module `NotificationStore`).
Each method is proved to produce exactly the state of the matching
function. The properties proved include:

- the count always agrees with the feed;
- marking is idempotent, and marking twice leaves one read row;
- marking all empties the unread count and makes a second call a no-op;
- every write keeps the store well formed: distinct ids, reads that point at existing notifications, and at most one read per notification and user. This is the `Store`'s object invariant `Valid()`.

**The menu handler** (`src/app/api/menus/route.ts`). The `GET` handler puts
the active menus granted to the caller's role in a map keyed by id,
keeping the order of first insertion. It hangs each menu under its parent
when the parent is in the map, and otherwise makes it a top-level menu.
Then it sorts every level of the tree by the `order` string
(`sortMenus`). The three loops are methods with invariants:
`CollectActiveMenus` (the first `forEach`), `LinkMenus` (the second) and
`SortChildren` (the `forEach` inside `sortMenus`). `SortMenus`, the
recursive method around that last loop, holds no loop of its own. The model
proves what the response is (`MenuTreeOf`):

- every node is a granted active menu, with its own children and only those;
- a menu appears once exactly when its chain of parents reaches a top-level menu, and otherwise not at all;
- with no parent cycle, every granted active menu appears exactly once;
- every level of the response is sorted, and sorting changes no node's menu or children.

Module layout:

- `Accounts`: sessions, users and roles;
- `Schema`: the enums with their tinyint codes, and the two records;
- `Conditions`: the drizzle condition trees;
- `Sequences`: the generic sort, counting and lexicographic order;
- `Notifications`;
- `NotificationStore`;
- `MenuTrees`: the serialised tree and `sortMenus`;
- `Menus`: the map, the linking and the handler.

In four places the code does something a caller might not expect, and the model does what the code does:

- `markAllNotificationsAsRead` with nothing to mark answers with a message and no `count` (`NothingToMark`), where a caller might expect a count of 0. `MarkAllReportsUnreadCount` proves that the unread count was 0 in that case.
- `markNotificationAsRead` checks only that the notification exists. It does not check that the caller can see it, or that the caller has a role. The model does the same.
- A menu whose chain of parents runs into a cycle is hung under its parent but is never reached from the top level, so the response drops it (`ForestIds`, `MenuTreeOf`). The code does not loop on such data.
- An empty string is falsy in `session?.user?.id` and in `menu.parentId`. So an empty session id counts as unauthenticated, and an empty `parentId` makes a menu top-level.

## Model

| member | source | states |
|---|---|---|
| Accounts.RoleOf | src/lib/notifications/actions.ts:166-175 | The caller has a role exactly when their user row exists and names a role that exists; the role returned is that role. |
| Schema.TargetTypeFromCode | src/lib/db/schema/notifications.ts:13-17 | A tinyint decodes to a target type exactly when it is 0, 1 or 2, and it decodes to the type with that code. |
| Schema.TypeFromCode | src/lib/db/schema/notifications.ts:22-25 | A tinyint decodes to a notification type exactly when it is 0 or 1, and it decodes to the type with that code. |
| Schema.PriorityFromCode | src/lib/db/schema/notifications.ts:30-35 | A tinyint decodes to a priority exactly when it is 0 to 3, and it decodes to the priority with that code. |
| Schema.CodesRoundTrip | src/lib/db/schema/notifications.ts:13-35 | Decoding the code of any enum value gives that value back. |
| Schema.CodesInjective | src/lib/db/schema/notifications.ts:13-35 | Two enum values have the same code only when they are equal. |
| Schema.PriorityCodesStrictlyOrdered | src/lib/db/schema/notifications.ts:30-35 | Priority codes rise strictly from LOW to URGENT, so sorting by priority descending puts URGENT first. |
| Schema.StoredRow | src/lib/db/schema/notifications.ts:40-53 | A stored row keeps the id, title, message and target id it was given, is stamped with the insert time, and keeps any enum field the insert supplies. |
| Schema.OmittedFieldsTakeDefaults | src/lib/db/schema/notifications.ts:46-50 | A row inserted without target type, type or priority is stored as GLOBAL, NOTIFICATION and NORMAL, with no target id. |
| Conditions.SelectsIffHolds | src/lib/notifications/actions.ts:179-192 | A condition tree selects a row (evaluates to TRUE under three-valued logic) exactly when it holds when read as a two-valued formula in which a comparison with NULL is false. |
| Notifications.AudienceSelectsVisible | src/lib/notifications/actions.ts:435-445 | The audience condition selects a notification exactly when it is global, or targets the user's role, or targets the user. |
| Notifications.FeedConditionSelects | src/lib/notifications/actions.ts:179-192 | The feed condition selects exactly the visible notifications of the feed's type. |
| Notifications.OptionalTypeConditionSelects | src/lib/notifications/actions.ts:447-450 | With a type filter the count condition selects the visible notifications of that type; without one it selects all visible notifications. |
| Notifications.UserScopedIsPrivate | src/lib/notifications/actions.ts:187-190 | A notification addressed to one user is invisible to every other user, whatever their role. |
| Notifications.RoleScopedReachesRole | src/lib/notifications/actions.ts:183-186 | A notification addressed to a role is visible to a user exactly when the user's role is that role. |
| Notifications.Where | src/lib/notifications/actions.ts:178-192 | The query returns each selected row as many times as it is stored, and no other row. |
| Notifications.WhereKeepsIdsDistinct | src/lib/notifications/actions.ts:178-192 | Filtering a table whose ids are distinct gives rows whose ids are distinct. |
| Notifications.ReadsBy | src/lib/notifications/actions.ts:193-197 | The joined reads are rows of the reads table for this notification and this user, and there is at least one exactly when the user has read it. |
| Notifications.ReadsByLoadsEveryRead | src/lib/notifications/actions.ts:193-197 | Every read of the notification by the user is loaded, with the multiplicity it has in the reads table, and no other read is loaded. |
| Notifications.CurrentUser | src/lib/notifications/actions.ts:159-175 | No session id gives Unauthenticated; a session whose user has no existing role gives UserRoleNotFound; otherwise the caller's id and role are returned. |
| Notifications.FeedMeetsSpecification | src/lib/notifications/actions.ts:178-205 | The feed is a permutation of the visible notifications of its type, ordered by priority and then creation time, both descending, and each item is flagged read exactly when the user has a read for it. |
| Notifications.FetchUserStandardNotifications | src/lib/notifications/actions.ts:157-207 | It fails exactly when the caller cannot be resolved, with the same failure; otherwise it returns the standard feed of the caller and their role. |
| Notifications.FetchUserMessages | src/lib/notifications/actions.ts:220-270 | It fails exactly when the caller cannot be resolved, with the same failure; otherwise it returns the message feed of the caller and their role. |
| Notifications.FeedMembership | src/lib/notifications/actions.ts:178-199 | A notification is in a feed exactly when it is stored, visible to the user and of the feed's type. |
| Notifications.UnreadCountIsPending | src/lib/notifications/actions.ts:453-465 | The count over the query result equals the number of stored notifications that are visible, of the requested type and not read by the user. |
| Notifications.CountUnreadNotifications | src/lib/notifications/actions.ts:414-467 | It fails exactly when the caller cannot be resolved; otherwise it returns the number of stored notifications that are visible to the caller, match the optional type and are unread. |
| Notifications.UnreadCountMatchesFeed | src/lib/notifications/actions.ts:202-205 | For any list meeting the feed's specification, the number of items flagged unread equals the unread count for that type. |
| Notifications.CountAgreesWithStandardFeed | src/lib/notifications/actions.ts:448-467 | Whenever the standard feed succeeds, the unread count for NOTIFICATION succeeds with the number of unread items in that feed. |
| Notifications.CountAgreesWithMessageFeed | src/lib/notifications/actions.ts:448-467 | Whenever the message feed succeeds, the unread count for MESSAGE succeeds with the number of unread items in that feed. |
| Notifications.Publish | src/lib/notifications/actions.ts:28-35 | Publishing appends exactly the stored row. It leaves the reads and the directory alone, keeps the store well formed, and the new notification is unread by everyone. |
| Notifications.CreateGlobalNotification | src/lib/notifications/actions.ts:21-46 | It returns the new id and appends a GLOBAL notification with no target id, the given type and priority, and the creation time. |
| Notifications.CreateRoleNotification | src/lib/notifications/actions.ts:51-90 | An unknown role gives RoleNotFound and changes nothing; otherwise it appends a ROLE notification targeting that role and returns its id. |
| Notifications.CreateUserNotification | src/lib/notifications/actions.ts:95-134 | An unknown user gives UserNotFound and changes nothing; otherwise it appends a USER notification targeting that user and returns its id. |
| Notifications.CreateUserMessage | src/lib/notifications/actions.ts:139-152 | An unknown user gives UserNotFound and changes nothing; otherwise it appends a USER notification of type MESSAGE targeting that user. |
| Notifications.PublishersKeepStoreWellFormed | src/lib/notifications/actions.ts:21-152 | Every publisher keeps the store well formed and writes no read, and a notification it creates is unread by every user. |
| Notifications.MarkNotificationAsRead | src/lib/notifications/actions.ts:283-319 | Covers each outcome: no session gives Unauthenticated; an unknown id gives NotificationNotFound; an existing read gives AlreadyRead and no change; otherwise exactly one read is appended for the caller. Notifications are never touched. |
| Notifications.MarkNotificationAsReadKeepsInvariants | src/lib/notifications/actions.ts:283-319 | Marking one notification keeps the store well formed and keeps at most one read per notification and user. |
| Notifications.MarkNotificationAsReadIdempotent | src/lib/notifications/actions.ts:300-310 | Repeating a mark changes nothing more: the second call reports AlreadyRead, or repeats the first call's failure. |
| Notifications.MarkTwiceLeavesOneRead | src/lib/notifications/actions.ts:300-319 | After two marks of an existing notification the caller has exactly one read for it. |
| Notifications.OneReadPerPairBoundsReads | src/lib/db/schema/notifications.ts:58-65 | When reads are unique per notification and user, each pair has at most one read row. |
| Notifications.UnreadIds | src/lib/notifications/actions.ts:382-384 | The ids kept by the filter are exactly the ids of the candidates the user has not read, one per such candidate. |
| Notifications.ToMarkIsPending | src/lib/notifications/actions.ts:354-384 | An id is marked exactly when it belongs to a stored notification that is visible, of the optional type and unread; with distinct notification ids none is marked twice. |
| Notifications.NewReadsFacts | src/lib/notifications/actions.ts:391-397 | The new reads cover exactly the ids to mark, all belong to the caller, have fresh distinct ids, and give one read per notification. |
| Notifications.MarkAllFor | src/lib/notifications/actions.ts:382-400 | Marking all reports nothing to mark exactly when the store is unchanged. A reported count is positive and equals the number of reads inserted. Notifications and directory are never touched. |
| Notifications.MarkAllNotificationsAsRead | src/lib/notifications/actions.ts:333-400 | It fails exactly when the caller cannot be resolved, and then changes nothing. "Nothing to mark" changes nothing. A reported count is positive and equals the number of reads inserted. |
| Notifications.MarkAllReportsUnreadCount | src/lib/notifications/actions.ts:386-400 | The count it reports, taken as 0 for "nothing to mark", equals the unread count before the call. |
| Notifications.MarkAllAppendsPendingReads | src/lib/notifications/actions.ts:391-399 | The call appends reads for the caller covering exactly the pending notifications, one per notification. |
| Notifications.MarkAllClearsUnread | src/lib/notifications/actions.ts:333-400 | After marking all, the unread count for the same type filter is 0. |
| Notifications.MarkAllTwiceMarksNothing | src/lib/notifications/actions.ts:386-388 | A second mark-all right after the first changes nothing and reports nothing to mark. |
| Notifications.MarkAllKeepsInvariants | src/lib/notifications/actions.ts:391-400 | Marking all keeps the store well formed and keeps at most one read per notification and user. |
| NotificationStore.Store.constructor | src/lib/db/schema/notifications.ts:40-65 | A new store has empty tables over the given directory and meets the object invariant: well formed, with at most one read per notification and user. |
| NotificationStore.Store.Insert | src/lib/notifications/actions.ts:37 | The insert appends the stored row, takes a fresh id and keeps the store well formed. |
| NotificationStore.Store.CreateGlobalNotification | src/lib/notifications/actions.ts:21-46 | The method's result and new tables are those of the global publisher. |
| NotificationStore.Store.CreateRoleNotification | src/lib/notifications/actions.ts:51-90 | The method's result and new tables are those of the role publisher, including the RoleNotFound case. |
| NotificationStore.Store.CreateUserNotification | src/lib/notifications/actions.ts:95-134 | The method's result and new tables are those of the user publisher, including the UserNotFound case. |
| NotificationStore.Store.CreateUserMessage | src/lib/notifications/actions.ts:139-152 | The method's result and new tables are those of the message publisher. |
| NotificationStore.Store.MarkNotificationAsRead | src/lib/notifications/actions.ts:283-319 | The method's result and new tables are those of marking one notification. The object invariant is kept, including one read per notification and user. |
| NotificationStore.Store.InsertReads | src/lib/notifications/actions.ts:391-399 | The bulk insert appends one read per id, in order, with consecutive fresh ids, and leaves the notifications alone. |
| NotificationStore.Store.MarkAllNotificationsAsRead | src/lib/notifications/actions.ts:333-400 | The method's result and new tables are those of marking all. The object invariant is kept, including one read per notification and user. |
| Menus.Collect | src/app/api/menus/route.ts:69-80 | The map holds only active menus under their own id, each with no children, and its key order lists every key once. |
| Menus.CollectAdmits | src/app/api/menus/route.ts:72-80 | An id is in the map exactly when some granted row has an active menu with that id. |
| Menus.CollectKeepsLastAdmitted | src/app/api/menus/route.ts:78 | Each entry holds the menu of the last admitted row with its id. |
| Menus.CollectActiveMenus | src/app/api/menus/route.ts:66-80 | The loop builds exactly the map and key order of the specification. |
| Menus.ChildrenOfSpec | src/app/api/menus/route.ts:86-90 | The children pushed under a parent are exactly the keys whose parent is that menu, with no repeats. |
| Menus.RootsOfSpec | src/app/api/menus/route.ts:83-95 | The top-level list holds exactly the keys whose parent is absent, empty or not in the map, with no repeats. |
| Menus.HungIsLinked | src/app/api/menus/route.ts:86-95 | After the linking pass every object keeps its menu and holds, in key order, exactly the keys whose parent it is. |
| Menus.LinkMenus | src/app/api/menus/route.ts:83-95 | The loop leaves every object with its children in key order and returns the top-level list of the specification. |
| Menus.LinkingLinks | src/app/api/menus/route.ts:86-95 | The linked objects form a parent graph: a child lists its parent, and each object's parent is the one its menu names. |
| Menus.RootPathUnique | src/app/api/menus/route.ts:18-22 | A menu is reached from the top level along one path only, so no object is serialised twice. |
| Menus.AcyclicReachesTop | src/app/api/menus/route.ts:86-95 | When the parent links have no cycle, each menu's chain of parents ends at a top-level menu. |
| Menus.AcyclicTreeHoldsEveryMenu | src/app/api/menus/route.ts:72-98 | With no parent cycle, each granted active menu appears exactly once in the response, and no other menu appears. |
| Menus.UnfoldCount | src/app/api/menus/route.ts:98-102 | Serialising a list of children holds each menu under it once, and no other menu. |
| Menus.UnfoldLevel | src/app/api/menus/route.ts:98-102 | The serialised level has exactly the listed ids. |
| Menus.UnfoldNodes | src/app/api/menus/route.ts:98-102 | Every serialised node carries its own menu and exactly the children linked under it. |
| Menus.ForestIsMenuTree | src/app/api/menus/route.ts:69-95 | The linked forest, read from the top-level list, is a response of the specification: the top level holds every parentless menu, each node has its own menu and children, and a menu appears exactly when it reaches the top level. |
| Menus.SameCensusSameTree | src/app/api/menus/route.ts:98 | A tree with the same levels, ids and nodes as a correct response is also a correct response, so sorting keeps it correct. |
| Menus.GetMenus | src/app/api/menus/route.ts:27-103 | No session id gives 401; a caller with no role gives 404; otherwise the data is sorted at every level and is the tree of the role's granted active menus. |
| MenuTrees.ByOrderIsTotalPreorder | src/app/api/menus/route.ts:13-15 | Comparing menus by `order` is reflexive, transitive and total, so the sort is well defined. Two menus tie exactly when their `order` strings are equal. |
| MenuTrees.SortLevel | src/app/api/menus/route.ts:13-15 | The sorted level is ordered by `order` and is a permutation of the input. |
| MenuTrees.SortMenus | src/app/api/menus/route.ts:11-25 | The result is sorted at every level and has the same length, top-level ids, ids and nodes as the input. |
| MenuTrees.SortChildren | src/app/api/menus/route.ts:18-22 | The loop keeps every menu in place, sorts every child list, and changes no ids or nodes. |
| MenuTrees.CensusPermutation | src/app/api/menus/route.ts:13-15 | Permuting a level permutes no menu in or out of the subtrees below it. |
| MenuTrees.LevelIdsPermutation | src/app/api/menus/route.ts:13-15 | Permuting a level keeps its multiset of ids. |
| Sequences.SortBy | src/lib/notifications/actions.ts:198 | The result is sorted by the given total preorder and is a permutation of the input. |
| Sequences.CountIfPermutation | src/lib/notifications/actions.ts:463-465 | Counting the rows that satisfy a test does not depend on their order. |
| Sequences.LexTotal | src/app/api/menus/route.ts:14 | Any two order strings are comparable. |
| Sequences.LexTransitive | src/app/api/menus/route.ts:14 | The string order is transitive. |
| Sequences.LexAntisymmetric | src/app/api/menus/route.ts:14 | Two strings each at most the other are equal. |

## Left out

- Database failures and the `try`/`catch` branches of every action and of the handler are not modelled: the error results and the 500 response, and the `console.error` calls. The model has no failing I/O.
- Concurrency is not modelled. Each action is one atomic transition. The race between the "already read" check and the insert, which can create two reads for one pair, cannot happen in the model. So `OneReadPerPair` is proved for sequential use only.
- `auth()` becomes the `session` parameter, the caller's id or nothing. The user and role rows become the `Directory`.
- `createId()` becomes a counter `nextId` shared by both tables. Fresh ids are distinct by construction, which stands in for cuid uniqueness.
- `defaultNow()` becomes the `now` parameter of each write.
- `localeCompare` becomes plain lexicographic order on characters. Collation, locale and case rules are not modelled.
- `eq` on a string column is modelled as exact string equality. This covers `targetId` against a role or user id, the `users.id` and `roles.id` lookups, and `notificationReads.userId` / `notificationId` (src/lib/notifications/actions.ts:61, 105, 185, 189, 195, 304). The database collation is not modelled. Under MySQL's default case-insensitive collations, ids that differ only in letter case or trailing spaces compare equal in the database, but they differ in the model.
- Sequences.SortBy: the order among equal keys is not specified. The database's order for equal priority and creation time is unspecified, so `IsFeed` accepts any such order.
- MenuTrees.SortLevel, MenuTrees.SortMenus: the order of menus with equal `order` values is not proved. `Array.prototype.sort` is stable, so the source keeps such menus in map key order, that is in the order they were pushed. The model's insertion sort also keeps equal elements in input order, so it computes that order, but the contracts state only that each level is sorted and is a permutation of its input.
- The model's `Menu` keeps only `id`, `parentId`, `order` and `isActive`. The other `menus` columns are carried through unchanged by the code and are left out. The `children: true` relation loaded by the query is overwritten by `children: []` before use, so it is not modelled.
- Column lengths (`varchar(128)`, `varchar(255)`) and the tinyint range are not enforced. Titles and messages are unbounded strings.
- `sortMenus` assigns `menu.children` on shared objects. The model works on values, which is faithful because the linking pass gives every object at most one parent, so no object is shared between two places in the tree (`RootPathUnique`). `SortMenus` and `SortChildren` are methods over sequences of trees, not over the heap objects.
- The response envelope (`success`, the Italian error strings, HTTP status codes) is reduced to the `Result` and `MenusResponse` cases.
- The React components, the auth actions and the relation declarations are not part of this model.
