# Board membership

A model of how users join, leave, list, show and delete boards in a Laravel
tabletop application. A board (name, description, capacity, join code) is
held by its members. Each membership is a row of the `board_user` pivot
table. The row carries a role: `master` for the creator, `player` for
everyone who joins later.

The store is modelled in `Repository.BoardStore`. It has two fields:

- `boards`: the `boards` table, as a map from id to board;
- `rows`: the `board_user` table, as a sequence in insertion order.

The order matters to the model: the application reads "the first row" of a
pair and lists rosters and the caller's boards without an `orderBy`. The
model reads all of these in pivot insertion order, which the database does
not guarantee (see "## Left out").

The three controllers become one module each:

- `PlayerBoardController` is the guarded join (`store`), the leave
  (`destroy`), and the member-scoped `index` and `show`.
- `BoardPlayerController` is the older, unguarded join. The
  `/boards/join` route is wired to it.
- `BoardController` is the unscoped `show` and the role gate on deleting a
  board.

Only `Attach`, `Detach` and `DeleteBoard` are methods of `BoardStore`. The
controller actions that change the store are module-level methods that take
it as `db`. They change the store only through those three methods. Each
such action states its whole outcome: the HTTP status, the message and the
new rows. It also states which of these invariants it keeps:

- `WithinCapacity`: no board has more rows than its capacity;
- `PairsUnique`: one row per (board, user);
- the number of masters on each board.

Read-only actions are functions. `Responses` holds the request parameter,
the `required|string` rule and the messages.

In these places the model follows the code, although the feature tests or a
natural reading expect otherwise:

- Deleting a board as a user with no row on it is a server error
  (`BoardController.php:72-75` reads a property of null), not a 403.
- A master's delete removes nothing (`BoardController.php:84-85`).
- The `/board/{board}` route serves the unscoped `BoardController.show`,
  not the member-scoped one.
- The duplicate-join guard counts the caller's rows on any board carrying
  the code, not only on the board found.
- Pair uniqueness is not enforced by the schema. The model proves what the
  guarded actions keep, and shows how the unguarded join breaks it.

## Model

| member | source | states |
|---|---|---|
| Repository.BoardStore.Attach | app/Http/Controllers/PlayerBoardController.php:101 | attaching appends exactly one pivot row and leaves the boards alone |
| Repository.BoardStore.Detach | app/Http/Controllers/PlayerBoardController.php:195 | detaching removes every row of the (board, user) pair and keeps the others in order |
| Repository.BoardStore.DeleteBoard | tests/Feature/BoardTest.php:250-257 | deleting a board removes it and every pivot row on it |
| Repository.RosterOf | app/Models/Board.php:15-17 | a board's users with their pivot roles: a member appears in it iff a row of that board carries that user and role, and it is no longer than the table |
| Repository.FirstRole | app/Http/Controllers/PlayerBoardController.php:156 | the role of the caller's first row on a board: none iff the caller has no row there, otherwise the role of a row that exists |
| Repository.MemberCount | app/Http/Controllers/PlayerBoardController.php:87 | `users()->count()` (also lines 21 and 182): the number of rows of the board, the length of its roster; positive iff some row is on that board |
| Responses.Filled | app/Http/Controllers/PlayerBoardController.php:39-41 | the rules `required` and `string` (also BoardPlayerController.php:38-40): an accepted code is a non-empty string, and a string whose first character `trim` keeps is accepted |
| Responses.FilledCases | tests/Feature/PlayerBoardTest.php:78-131 | a missing value, a non-string, the empty string and strings of the characters `trim` removes are refused; a ten-letter join code is accepted |
| Repository.CodeCount | app/Http/Controllers/PlayerBoardController.php:73 | the caller's rows on boards carrying a code: positive iff some row of the caller is on an existing board with that code |
| Repository.FirstByCode | app/Http/Controllers/PlayerBoardController.php:55 | the board `where('code')->first()` finds: none iff no board carries the code, otherwise a board carrying it, with the least id among those |
| Repository.Without | app/Http/Controllers/PlayerBoardController.php:195 | the table after detaching a pair: a row stays iff it is not of that pair |
| Repository.RowsNotOn | tests/Feature/BoardTest.php:254-257 | the table after deleting a board: a row stays iff it is on another board |
| Repository.RosterAppend | tests/Feature/PlayerBoardTest.php:260-334 | attaching a row to a board appends its member to that board's roster and leaves every other roster unchanged |
| Repository.CountAppend | app/Http/Controllers/PlayerBoardController.php:87-101 | attaching raises that board's member count by one and no other count |
| Repository.AppendPlayerKeepsMasters | app/Http/Controllers/PlayerBoardController.php:101 | attaching a player leaves the number of masters of every board unchanged |
| Repository.AppendKeepsCapacity | app/Http/Controllers/PlayerBoardController.php:87-101 | attaching to a board below capacity keeps every board within capacity |
| Repository.AppendToFullBreaksCapacity | app/Http/Controllers/BoardPlayerController.php:43-46 | attaching to a full board takes it over capacity |
| Repository.AppendFreshKeepsUnique | app/Http/Controllers/PlayerBoardController.php:73-84 | attaching a pair that has no row keeps pairs unique |
| Repository.AppendMemberBreaksUnique | app/Http/Controllers/BoardPlayerController.php:46 | attaching a pair that already has a row gives it two rows |
| Repository.MemberCountPositive | app/Http/Controllers/PlayerBoardController.php:16-23 | a board with a row for some user has at least one member |
| Repository.FirstRoleIsTheRole | app/Http/Controllers/PlayerBoardController.php:156-180 | with unique pairs, the first row's role is the role of the pair's only row |
| Repository.RosterDistinct | app/Http/Controllers/PlayerBoardController.php:182-192 | with unique pairs, a roster lists each user once, so the member count the leave guard reads counts users |
| Repository.RosterWithout | tests/Feature/PlayerBoardTest.php:452-473 | detaching a pair drops that user from the board's roster and leaves every other roster unchanged |
| Repository.RosterNotOn | tests/Feature/BoardTest.php:250-257 | deleting a board empties its roster and leaves every other roster unchanged |
| Repository.WithoutKeepsUnique | app/Http/Controllers/PlayerBoardController.php:195 | detaching keeps pairs unique |
| Repository.WithoutMemberCount | tests/Feature/PlayerBoardTest.php:470-473 | with unique pairs, detaching a member lowers that board's member count by exactly one |
| Repository.WithoutKeepsCapacity | app/Http/Controllers/PlayerBoardController.php:195 | detaching keeps every board within capacity |
| Repository.WithoutPlayerKeepsMasters | app/Http/Controllers/PlayerBoardController.php:172-195 | detaching a pair with no master row leaves every board's master count unchanged |
| PlayerBoardController.Store | app/Http/Controllers/PlayerBoardController.php:36-111 | the join guards in order: 422 on a missing, non-string or blank code; 422 on an unknown code; 422 when the caller is already on a board with that code; 403 when the board is full; otherwise 201 and one player row appended. 201 iff the table changed; after a 201 the caller is a new member and the board is within capacity; capacity, pair uniqueness and master counts are kept |
| PlayerBoardController.AlreadyByCode | app/Http/Controllers/PlayerBoardController.php:73-84 | the code-wide duplicate guard refuses in particular a caller already on the board the code selects |
| PlayerBoardController.Destroy | app/Http/Controllers/PlayerBoardController.php:147-203 | the leave guards in order: 404 for no board; 403 for no row; 403 for a master; 403 when one member or fewer remains; otherwise 200 and the pair detached. 200 iff the table changed; after a 200 the caller is no longer a member, the board's roster loses exactly that user, other rosters are unchanged and (pairs unique) at least one member remains; capacity, uniqueness and (pairs unique) master counts are kept |
| Repository.RowsOfUser | app/Http/Controllers/PlayerBoardController.php:21 | the rows `$user->boards` reads: a row is in it iff it is the caller's and its board exists |
| Repository.RowsOfUserDistinct | app/Http/Controllers/PlayerBoardController.php:21 | with unique pairs, no two of a user's rows are on the same board |
| PlayerBoardController.Index | app/Http/Controllers/PlayerBoardController.php:16-23 | exactly one entry per row of the caller on an existing board, in the order of those rows, each with that board, the row's role and the board's member count (at least one); every such row is listed |
| PlayerBoardController.IndexBoardsDistinct | tests/Feature/PlayerBoardTest.php:202-258 | with unique pairs, the index lists each board at most once |
| PlayerBoardController.Show | app/Http/Controllers/PlayerBoardController.php:116-124 | the board is returned iff it exists and the caller has a row on it, otherwise 404; it comes with its full roster, which lists the caller |
| PlayerBoardController.JoinerListedLast | tests/Feature/PlayerBoardTest.php:260-334 | after a player joins, the board can be shown to them and lists them after everyone already there |
| PlayerBoardController.IndexedBoardsShow | app/Http/Controllers/PlayerBoardController.php:16-23 | every board the index lists can be shown to the caller, with as many users as its `users_count` |
| BoardPlayerController.Store | app/Http/Controllers/BoardPlayerController.php:31-50 | a missing, non-string or blank code fails `$request->validate`: 422 for a client that asks for JSON, a redirect back (302) for any other; otherwise 201 with the board the code selects and one player row appended, whatever its capacity or the caller's rows; master counts are kept |
| BoardPlayerController.UnguardedJoinOverfills | app/Http/Controllers/BoardPlayerController.php:43-47 | joining a full board through this action takes it over capacity |
| BoardPlayerController.UnguardedJoinDuplicates | app/Http/Controllers/BoardPlayerController.php:43-47 | joining a board the caller is already on gives the pair a second row |
| BoardPlayerController.FullBoardExample | app/Http/Controllers/BoardPlayerController.php:43-47 | a capacity-2 board with its master and one player: a third user joining makes three members, and the master joining again duplicates the master's pair |
| BoardController.Show | app/Http/Controllers/BoardController.php:39-43 | the board with that id iff it exists, otherwise 404 |
| BoardController.ShowIsUnscoped | routes/api.php:21 | the routed `show` returns a board to anyone, while the scoped one gives 404 exactly to non-members; for members both return the same board |
| BoardController.Destroy | app/Http/Controllers/BoardController.php:64-85 | as written: 404 iff no board; server error iff the caller has no row; 403 iff the first row is a player's; 200 with an empty body iff it is a master's |
| BoardController.PlayerCannotDestroy | tests/Feature/BoardTest.php:283-336 | with unique pairs, a player on the board is refused deletion |
| BoardController.MasterDestroyKeepsBoard | app/Http/Controllers/BoardController.php:84-85 | after a 200 the board and the master's rows are still there |
| BoardController.DestroyCascading | tests/Feature/BoardTest.php:217-262 | corrected delete: 404 for no board; 403 for anyone without a master first row (no row included); otherwise 200, the board and all its rows removed and other rosters unchanged; nothing changes except on 200; capacity is kept |

## Left out

- HTTP and JSON shaping: the `response` envelope, `status_title`, the
  validator's per-field error bodies and the JSON of a returned board are
  reduced to a status and a `Message` tag.
- Authentication and the `auth` middleware. The caller is the
  `callerId` parameter. The unauthenticated redirects (302) are not
  modelled.
- Route-model binding of a non-numeric id (`/board/bonjour`): ids are
  integers here.
- The `TrimStrings` and `ConvertEmptyStringsToNull` middleware. `Filled`
  states the combined effect of `required|string` on the submitted value.
  `FirstByCode` and `CodeCount` look up the code exactly as submitted, while
  the middleware would hand them the trimmed code: " ABCDEFGHIJ" joins a
  board coded "ABCDEFGHIJ" in the application, and the model answers 422
  for an unknown code.
- Board creation and update (`BoardController` `store` and `update`), and
  its `index`. They are outside the membership core.
- Random join-code generation. Codes are plain strings here.
- The other Eloquent relations of a board (chats, templates, logs, fiches).
- Timestamps and the pivot row's own id.
- Users with pivot rows whose user no longer exists. Every row counts
  toward its board.
- Concurrency: two joins racing past the capacity check. Each action runs
  atomically here.
- The cascade clause of the boards migration. It is attached to a column
  the table does not have. The deletion of rows on a board is modelled
  only in `BoardController.DestroyCascading`.
- BoardPlayerController.Store: requires a board to carry any filled code. As
  written, an unknown code dereferences a null board. That case is a
  server error, not a modelled outcome.
- PlayerBoardController.Destroy: the exact drop of one member and the
  unchanged master counts are proved only under `PairsUnique`. Detach
  removes every row of the pair, while the role check reads only the first
  row. With duplicate rows, a player-first pair can also hold a master row.
- Repository.RosterOf, Repository.FirstRole, Repository.RowsOfUser: they use
  pivot insertion order for "first", for the order `users` are listed in and
  for the order of the index. The queries have no `orderBy`, so the database
  promises none of these orders. Membership, counts and roles do not depend
  on the order.
- Repository.FirstByCode, Repository.CodeCount: codes match by exact string
  equality, as under a binary collation such as SQLite's default. Under a
  case-insensitive collation such as MySQL's `utf8mb4_unicode_ci`, which
  also ignores trailing spaces, "abcdefghij" would select a board coded
  "ABCDEFGHIJ" and count toward the duplicate guard. The model answers 422
  for the unknown code instead.
- Repository.FirstByCode: `first()` without an order is read as the least
  id. The database gives no such promise.
- The `ShowBoardTest` and `RouteTest` files are not part of this model.

## Findings

| source | as written | input that shows it | evidently intended | confidence | as-written member | corrected member |
|---|---|---|---|---|---|---|
| app/Http/Controllers/BoardController.php:84-85 | the master branch falls off the end: nothing is deleted and the body is empty | board 1 with master 10; user 10 deletes board 1 | the board and its pivot rows are deleted and 200 is returned (tests/Feature/BoardTest.php:250-257) | high, not executed | BoardController.MasterDestroyKeepsBoard | BoardController.DestroyCascading |
| app/Http/Controllers/BoardController.php:72-75 | a caller with no row on the board reaches `$foundUser->pivot` on null | board 1 with master 10; user 11 deletes board 1 | 403, like any caller who is not a master | medium, not executed | BoardController.Destroy | BoardController.DestroyCascading |
| app/Http/Controllers/BoardPlayerController.php:43-47 | the routed join attaches without the duplicate or capacity check | capacity-2 board with rows (1,10,master), (1,11,player); user 12 joins with its code | 403 for a full board and 422 for an existing member, as the guarded join does | high, not executed | BoardPlayerController.FullBoardExample | PlayerBoardController.Store |
