# Todo service: a Dafny model

This project models the core of a small task-tracking backend: the `TodoService`
(create, list, get by id, partial update, soft delete) over a single soft-delete table of
`Todo` rows. The table is an in-memory store (`Store.Repository`): a sequence of rows in
store-default order plus the next auto-increment id. The ORM calls the service makes
(`create`/`save`, `findAndCount`, `findOne`, `update`) are the repository's methods. Their
meaning is given by functions on the row sequence (`Filter`, `Window`, `Lookup`,
`PatchRows`, `CountId`). The service (`Service.TodoService`) returns the same
success/failure envelopes and messages as the source.

Modules, one per part of the program:

- `Util` (util.dfy): `Option`, the outcome of one store round-trip (`StoreResult`), and the
  decimal rendering of an id inside messages.
- `Entity` (entity.dfy): the `Todo` row, the closed `Status` and `Priority` enums with the
  names the enum columns store, and the column defaults.
- `Store` (store.dfy): the `where` object, the table functions and the `Repository` class.
- `Service` (service.dfy): payloads, envelopes, messages, pagination arithmetic, filter
  construction and the `TodoService` class. It also holds two client methods,
  `BuyMilkScenario` and `PendingListScenario`. They replay two usage scenarios using only
  what the contracts promise. `BuyMilkScenario` builds its table through the service.
  `PendingListScenario` starts from a six-row table set up directly in the repository.

Behaviour reproduced as the code has it:

- When both `startDate` and `endDate` are given, `findAll` first sets a `Between` bound and
  then overwrites it with `>= startDate`. Rows due after `endDate` are therefore still listed.
- `update` does not look at `isActive` (src/todo/todo.service.ts:99), so it writes the row
  whatever its `isActive`. On an inactive row it still reports
  "Todo updated successfully", and its `todo` is absent, because the refetch goes through
  the active-only `findOne`.
- An `update` payload with none of `details`, `status` and `priority` passes validation,
  since all three are optional. The ORM leaves absent fields out of the `SET` list and
  raises when the list is empty. The reply is therefore "Error updating todo with ID {id}",
  whether or not the id exists (`Store.Accepted`).
- `remove` does not check `isActive` first. A second `remove` of the same id succeeds again
  and changes nothing.

Some definitions are plain vocabulary that the rows below give meaning to:

- `Store.InBound`: the three ORM date operators, `Between`, `MoreThanOrEqual` and
  `LessThanOrEqual`, all inclusive.
- `Service.Truthy`: JavaScript truthiness of an optional string. It is present and not empty.
- `Service.ChangesOf`: the partial object `update` sends. It holds the request's details,
  status and priority and never `isActive`.
- `Service.SoftDelete`: the partial object `remove` sends, `isActive := false`.
- `Store.ApplyPatch`: how the ORM's partial update changes one row. Each field the patch
  supplies replaces the stored value, and the others stay.
- `Store.SetsSomething` and `Store.Accepted`: a change that supplies at least one field and
  whose enum values conform. This is what the ORM's `update` carries out rather than raising.

Inputs from outside the program are parameters:

- `created` is the creation timestamp the store's `CURRENT_TIMESTAMP` would supply.
- Each store round-trip has a `fails` flag that stands for a raised persistence or
  connectivity error. `update` has two flags, one for the write and one for the refetch.
- Dates are integer day numbers.

## Model

| member | source | states |
|---|---|---|
| `Util.NatToStringValue` | src/todo/todo.service.ts:85 | the digits rendered for a non-negative number, read back as a decimal numeral, are that number |
| `Util.IntToString` | src/todo/todo.service.ts:85 | the rendering of an id inside a message starts with a minus sign exactly for a negative id; the rest are decimal digits with no leading zero whose value is the id's magnitude |
| `Util.IntToStringInjective` | src/todo/todo.service.ts:85 | two ids that render to the same text in a message are the same id, so each id-bearing message names exactly one id |
| `Entity.ParseStatus` | src/todo/entities/todo.entity.ts:14-19 | the status column accepts a string exactly when it is the name of one of pending, in-progress, paused, done, and then yields that status |
| `Entity.ParsePriority` | src/todo/entities/todo.entity.ts:21-26 | the priority column accepts a string exactly when it is the name of one of normal, medium, high, and then yields that priority |
| `Store.BetweenIsBothBounds` | src/todo/todo.service.ts:53-55 | `Between(lo, hi)` is `MoreThanOrEqual(lo)` and `LessThanOrEqual(hi)` together, so overwriting it with `MoreThanOrEqual(lo)` newly admits exactly the dates after `hi` |
| `Store.Matches` | src/todo/todo.service.ts:41-51 | a row satisfying an enum filter has exactly the status or priority the string names, so a string naming no enum value matches no row |
| `Store.Filter` | src/todo/todo.service.ts:60-64 | there are never more matches than rows |
| `Store.FilterCounts` | src/todo/todo.service.ts:60-66 | each matching row occurs among the matches exactly as often as in the table, and no other row occurs, so `total` counts every match once |
| `Store.FilterMembers` | src/todo/todo.service.ts:60-64 | a row is among the matches of a `where` object exactly when it is in the table and satisfies every condition of the object |
| `Store.Window` | src/todo/todo.service.ts:60-64 | skip then take: the page holds at most `take` rows, namely the matches from position `skip` on, and is empty once `skip` passes the end |
| `Store.Lookup` | src/todo/todo.service.ts:83 | the lookup by id finds a row only if that row is in the table, has the id and is active; it finds nothing exactly when no active row has the id |
| `Store.Conforms` | src/todo/entities/todo.entity.ts:14-26 | the enum columns accept a change exactly when each supplied status or priority string is the name of some value of its enum |
| `Store.ToPatch` | src/todo/todo.service.ts:96-99 | once the schema accepts the enum strings, the typed patch supplies exactly the fields the payload supplies, with the same values |
| `Store.PatchRows` | src/todo/todo.service.ts:99 | a partial update keeps the number of rows and the id at every position |
| `Store.CountId` | src/todo/todo.service.ts:101 | the affected count never exceeds the number of rows, and it is 0 exactly when no row has the id |
| `Store.PatchRowsAt` | src/todo/todo.service.ts:99 | after a partial update by id, each row with that id is the patched row and every other row is unchanged |
| `Store.PatchFrame` | src/todo/entities/todo.entity.ts:5-29 | no partial update writes `id`, `dueDate` or `dateOfCreation`; rows with another id are untouched |
| `Store.PatchKeepsIds` | src/todo/entities/todo.entity.ts:5-6 | a partial update keeps the ids unique and within the range generated so far |
| `Store.PatchMissingId` | src/todo/todo.service.ts:99-106 | an update on an id that no row holds leaves the table unchanged |
| `Store.CountIdUnique` | src/todo/todo.service.ts:101 | with unique ids, the affected count of an update by id is 1 if the id exists and 0 otherwise |
| `Store.PatchIdempotent` | src/todo/todo.service.ts:122-126 | applying the same partial update twice leaves the table as applying it once (a repeated soft delete changes nothing) |
| `Store.DeactivateHides` | src/todo/todo.service.ts:122-124 | after `isActive := false` on an id, the active-only lookup of that id finds nothing |
| `Store.PatchKeepsHidden` | src/todo/todo.service.ts:99-112 | an update that leaves `isActive` alone cannot make a missing or inactive id visible to the lookup |
| `Store.PatchShowsPatched` | src/todo/todo.service.ts:108-112 | on an active row, the lookup after the update returns that row with the supplied fields applied |
| `Store.LookupAfterAppend` | src/todo/todo.service.ts:17-22 | appending a row with a fresh id makes it the lookup result of its id and leaves every other id's lookup unchanged |
| `Store.Repository.constructor` | src/todo/entities/todo.entity.ts:5-6 | an empty table whose generated ids start at 1 |
| `Store.Repository.Insert` | src/todo/todo.service.ts:17-21 | on success, exactly one row is appended: the next id, which no existing row holds, the given details and due date, status pending, priority normal, active, and the supplied creation time |
| `Store.Repository.FindAndCount` | src/todo/todo.service.ts:60-64 | the page is the skip/take window of the matching rows, and the count covers every match regardless of skip and take |
| `Store.Repository.FindOne` | src/todo/todo.service.ts:83 | the result is the active-only lookup of the id, or a failure when the round-trip raises |
| `Store.Repository.Update` | src/todo/todo.service.ts:99-101 | a value outside an enum, or a change that supplies no field at all, fails and changes nothing; otherwise the rows with that id are patched, nothing else changes, and the affected count is 1 or 0 as the id exists |
| `Service.Skip` | src/todo/todo.service.ts:38-39 | the skip is a whole number of pages: exactly `page - 1` pages of `limit` rows |
| `Service.TotalPages` | src/todo/todo.service.ts:66 | the integer ceiling of `total / limit`: the pages hold all `total` rows and one page fewer would not |
| `Service.WhereFor` | src/todo/todo.service.ts:41-58 | the filter admits exactly active rows equal to each truthy status/priority string, due on or after `startDate` when both dates are given, on or before `endDate` when only it is given, with no date constraint otherwise |
| `Service.UpperBoundDropped` | src/todo/todo.service.ts:53-55 | with both dates given, an active row due after `endDate` but not before `startDate` is still matched |
| `Service.PageNonEmptyIffWithinTotal` | src/todo/todo.service.ts:39-66 | a page is non-empty exactly when its number is at most `totalPages` |
| `Service.MessagesNameTheirId` | src/todo/todo.service.ts:85-139 | each of the seven id-bearing messages ("Todo with ID {id} not found", "Error fetching todo with ID {id}", "... not found for update", "Error updating ...", "... deleted successfully", "... not found for deletion", "Error deleting ...") determines its id |
| `Service.MessagesDistinct` | src/todo/todo.service.ts:85-139 | the replies of one operation never share a message whatever the ids, and the not-found messages of `findOne`, `update` and `remove` differ from each other |
| `Service.RemoveTwice` | src/todo/todo.service.ts:122-136 | a second soft delete of an id still finds the row (so it also succeeds) and leaves the table as the first one left it |
| `Service.RemoveKeepsRows` | src/todo/todo.service.ts:122-124 | a soft delete keeps every row; only `isActive` of the rows with that id becomes false |
| `Service.UpdateFrame` | src/todo/todo.service.ts:96-99 | an update changes only the row with that id, only its details/status/priority and only those supplied; `id`, `dueDate`, `dateOfCreation` and `isActive` stay |
| `Service.SamplePendingFilter` | src/todo/todo.service.ts:41-51 | over three active pending, two active done and one inactive pending row, the "pending" filter matches exactly the three active pending rows |
| `Service.TodoService.constructor` | src/todo/todo.service.ts:10-13 | the service is bound to the given repository |
| `Service.TodoService.Create` | src/todo/todo.service.ts:15-27 | success with "Todo created successfully" and exactly one new row with a fresh id and the defaults, after which the next id is one higher; on a store error, "Error creating todo" and no change |
| `Service.TodoService.BuildWhere` | src/todo/todo.service.ts:41-58 | the `where` object assembled key by key, including the overwritten `Between`, equals the filter whose meaning `WhereFor` states |
| `Service.TodoService.FindAll` | src/todo/todo.service.ts:29-79 | at most `limit` rows, all in the table, all active, each equal to every truthy filter and within the date bound; `total` counts all matches; `totalPages` is the ceiling; `currentPage = page`; "Error fetching todos" on a store error |
| `Service.TodoService.FindOne` | src/todo/todo.service.ts:81-92 | success with the row exactly when an active row has the id; otherwise "Todo with ID {id} not found", the same for missing and inactive rows; "Error fetching todo with ID {id}" on a store error |
| `Service.TodoService.Update` | src/todo/todo.service.ts:94-118 | a missing id gives "Todo with ID {id} not found for update" and no change; an existing row is patched whatever its `isActive`, with "Todo updated successfully" and the refetched row, which is absent when the row is inactive; a store error, a non-enum value or a payload with none of the three fields gives "Error updating todo with ID {id}" and no change |
| `Service.TodoService.Remove` | src/todo/todo.service.ts:120-141 | an existing id gets `isActive` false, "Todo with ID {id} deleted successfully", and a later lookup fails; a missing id gives "Todo with ID {id} not found for deletion" and no change; a store error gives "Error deleting todo with ID {id}" |

## Left out

- NestJS decorators and dependency injection: framework wiring. The constructor simply takes the repository.
- `async`/`await` and a delete that races the update's refetch: concurrency. Here the refetch reads the state the write left, unless its own `fails` flag is set.
- `console.error` logging: I/O.
- What makes the store fail: each round-trip has a `fails` flag instead, and the service maps it to its fixed "Error ..." message.
- `Service.TodoService.FindAll`: requires `page >= 1` and `limit > 0`. For other inputs the store decides what happens. A `limit` of 0 makes `Math.ceil` yield Infinity or NaN. A negative `limit` gives a negative take and page count. A `page` below 1 gives a negative skip.
- JavaScript numbers for `page`, `limit` and `id` are modelled as unbounded integers. Non-integer values are not modelled. Neither are integers beyond 2^53, which a double does not hold exactly, nor ids of magnitude 1e21 or more, which a template literal renders in exponent notation (`Util.IntToString` is their rendering only below 1e21).
- `CURRENT_TIMESTAMP` as a clock: the creation time is a parameter of `create`.
- Date parsing and time zones: `dueDate`, `startDate` and `endDate` arrive as day numbers, so any time of day has already been dropped. An absent date and an empty date string are both `None`, since both are falsy.
- `create` echoes back the caller's `dueDate` value as the caller gave it. In the model that value is already a day number.
- The store-default row order: insertion order stands for it.
- The class-validator decorators of the two payloads: validation happens upstream. Only the payloads' shapes are modelled.
- A status or priority filter string that names no enum value matches no row. Some databases raise instead.
- Database collations are not modelled: enum strings are compared by exact, case-sensitive equality. Under a case-insensitive collation, "PENDING" would match pending rows in `findAll` and be stored as pending by `update`.
- The ORM library's own code is not part of this model. Its `update` is described by its observable behaviour: absent fields are left out, an empty `SET` raises, and the affected count is the number of rows with the id.
