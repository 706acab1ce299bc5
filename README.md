# Todo service: table and request handlers

This project models the core of a small CRUD service for todo items. The
core has two parts:

- the repository over one `todos` table (`TodoModel`);
- the request handlers that turn HTTP requests into repository calls and
  repository results into status codes and JSON bodies (`TodoController`).

It also models the process-wide error handler that answers for a handler
that forwards a failure (`App`).

Modules and files:

- `wrappers.dfy` / `Wrappers`: `Option` (JavaScript's `undefined`/`null`
  as `None`) and `Result`.
- `todos.dfy` / `Todos`: the `Todo` row, the update `Patch`, column
  defaults, and the pure meaning of the table. The table is held as its
  rows in id order. `Lookup` is `SELECT ... WHERE id = ?`, `Without` is
  `DELETE ... WHERE id = ?`, `Patched` is the `UPDATE` with the merged
  fields, and `SortNewestFirst` is `ORDER BY created_at DESC`. The file
  also holds the lemmas that tie these together.
- `text.dfy` / `Text`: `String.prototype.trim`, using ECMAScript's full
  WhiteSpace and LineTerminator set. It also holds the coercion of a path
  id (always a string) to the integer it matches, and decimal printing of
  ids.
- `todo_model.dfy` / `TodoModel`: class `TodoTable`. Its fields are `rows`,
  `highestId` (the AUTOINCREMENT record of the largest id ever handed out)
  and a ghost `issued` set of every id ever handed out. Each of `getAll`,
  `getById`, `create`, `update` and `delete` is a method. The methods that
  change the table state the whole new state in terms of the `Todos`
  functions and keep `Valid()`. `Valid()` says ids strictly increase, every
  stored id was issued, and every issued id is at most `highestId`. So a
  fresh id is never one used before, even after a delete.
- `todo_controller.dfy` / `TodoController`: one method per handler. Each
  returns an `Outcome`: exactly one `Responded(Response(status, body))`, or
  `Forwarded(fault)` for `next(err)`, in which case the handler sends
  nothing. Storage-engine faults (disk, I/O, the test stubs' rejections)
  arrive as a `fault: Option<Fault>` parameter. The one fault the engine
  raises by rule is included: AUTOINCREMENT running out of ids. The
  methods `CreateScenario`, `UpdateScenario`, `DeleteIsFinalScenario`,
  `BlankTitleScenario` and `PaddedTitleScenario` are clients that walk the
  handlers' contracts through create, update, delete and a second fetch
  and delete.
- `app.dfy` / `App`: `res.status(err.status || 500).json({error:
  err.message || "Unknown error"})`.

Behaviour of the code worth noting:

- `create` stores `priority || "medium"`, so an empty priority also becomes
  `"medium"`, not only an omitted one.
- `update` stores any integer in `completed`, not only 0 or 1, and any
  string in `title`, the empty one included.
- The repository itself accepts an empty title. Only the handler rejects
  it.

## Model

| member | source | states |
|---|---|---|
| Todos.StoredPriority | src/models/todoModel.js:29-33 | create stores the given priority when it is truthy, otherwise "medium"; the stored priority is never empty |
| Todos.Merge | src/models/todoModel.js:40-44 | the merged row keeps the stored id and created_at |
| Todos.MergeSupplied | src/models/todoModel.js:40-44 | every supplied field wins, falsy values such as "" and 0 included |
| Todos.MergeOmitted | src/models/todoModel.js:40-44 | a field that is null or undefined keeps the stored value; an empty patch changes nothing |
| Todos.MergeTwice | tests/todoRoutes.test.js:198-219 | two updates in a row equal one update with the later fields on top |
| Todos.Lookup | src/models/todoModel.js:26-28 | a present result is a stored row with that id; absent exactly when no row has the id |
| Todos.LookupAt | src/models/todoModel.js:13 | with unique ids, looking up a row's id finds that row |
| Todos.InsertKeepsInvariant | src/models/todoModel.js:29-34 | inserting under the next id keeps ids increasing, every stored id issued and every issued id within the counter; a lookup of the new id finds the new row |
| Todos.AppendFresh | src/models/todoModel.js:13 | a row whose id exceeds every stored id keeps the ids increasing when appended and is what its id finds |
| Todos.Without | src/models/todoModel.js:57-58 | a delete never adds rows |
| Todos.WithoutMembers | src/models/todoModel.js:57-58 | after a delete the rows are exactly the old rows with another id |
| Todos.WithoutDrops | src/models/todoModel.js:57-58 | after a delete the deleted id finds nothing |
| Todos.WithoutShrinks | src/models/todoModel.js:57-59 | a delete removes rows exactly when some row had the id, so `changes > 0` reports whether a row existed |
| Todos.WithoutConcat | src/models/todoModel.js:57-58 | deleting from two runs of rows put together deletes from each run |
| Todos.WithoutOne | src/models/todoModel.js:57-58 | deleting the id of the only row that carries it leaves the rows before and after it |
| Todos.AbsentBefore | src/models/todoModel.js:13 | with unique ids, no row before a position carries that position's id |
| Todos.AbsentAfter | src/models/todoModel.js:13 | with unique ids, no row after a position carries that position's id |
| Todos.WithoutAt | src/models/todoModel.js:57-58 | deleting a stored id cuts out exactly that one row |
| Todos.WithoutAbsent | src/models/todoModel.js:57-60 | deleting an id no row has leaves the table as it was |
| Todos.DeleteKeepsInvariant | src/models/todoModel.js:57-58 | a delete keeps ids increasing and every stored id issued, with the counter and the issued ids as they were |
| Todos.LookupWithout | src/models/todoModel.js:57-60 | a delete leaves what every other id finds unchanged |
| Todos.WithoutTwice | src/models/todoModel.js:57-60 | deleting twice is deleting once |
| Todos.WithoutIncreasing | src/models/todoModel.js:13 | a delete keeps the remaining ids increasing |
| Todos.Patched | src/models/todoModel.js:46-53 | the update keeps the table's size, every id and created_at, and every row with another id |
| Todos.PatchedAt | src/models/todoModel.js:46-53 | with unique ids the update rewrites exactly the target row with the merged fields |
| Todos.LookupPatched | src/models/todoModel.js:46-55 | after the update the target id finds the merged row and every other id finds what it found before |
| Todos.NewestFirstCons | src/models/todoModel.js:24 | a row no older than the head of a newest-first listing can go in front of it |
| Todos.NewestFirstTail | src/models/todoModel.js:24 | the tail of a newest-first listing is newest-first |
| Todos.InsertNewestFirst | src/models/todoModel.js:24 | inserting a row into a listing adds exactly that row |
| Todos.InsertKeepsOrder | src/models/todoModel.js:24 | inserting into a newest-first listing keeps it newest-first |
| Todos.SortNewestFirst | src/models/todoModel.js:24 | the listing is a permutation of the rows |
| Todos.SortIsNewestFirst | src/models/todoModel.js:24 | the listing is ordered by created_at, non-increasing |
| Text.SkipLeading | src/controllers/todoController.js:27 | the index after the leading whitespace: everything before it from the start index is whitespace and the character there is not |
| Text.SkipTrailing | src/controllers/todoController.js:27 | the end before the trailing whitespace: everything from it to the end index is whitespace and the character before it is not |
| Text.Trim | src/controllers/todoController.js:27 | neither end of the result is whitespace; the result is empty exactly when the title is all whitespace |
| Text.TrimSplit | src/controllers/todoController.js:27 | the title is leading whitespace, then the trimmed title, then trailing whitespace |
| Text.SkipLeadingRun | src/controllers/todoController.js:27 | a whitespace run ending at a non-whitespace character or the end is exactly what is skipped at the front |
| Text.SkipTrailingRun | src/controllers/todoController.js:27 | a whitespace run starting after a non-whitespace character is exactly what is dropped at the back |
| Text.TrimPadded | src/controllers/todoController.js:27 | any whitespace, then a core with non-whitespace ends (or nothing), then any whitespace, trims to exactly that core |
| Text.TrimIdempotent | src/controllers/todoController.js:27 | trimming twice is trimming once |
| Text.ParseId | src/models/todoModel.js:27 | a path id matches an integer exactly when it is a non-empty string of decimal digits |
| Text.Digit | tests/todoRoutes.test.js:95 | a digit character and its value agree |
| Text.Decimal | tests/todoRoutes.test.js:95 | the decimal spelling of an id is a non-empty run of digits |
| Text.ParseDecimal | tests/todoRoutes.test.js:94-97 | an id written into a path parses back to that id |
| TodoModel.TodoTable.constructor | src/models/todoModel.js:10-20 | a new table is empty and has issued no id |
| TodoModel.TodoTable.FindIndex | src/models/todoModel.js:27 | returns the position of the row with that id, or -1 exactly when there is none |
| TodoModel.TodoTable.GetAll | src/models/todoModel.js:23-25 | returns every stored row exactly once, newest created_at first |
| TodoModel.TodoTable.GetById | src/models/todoModel.js:26-28 | returns the row with that id, or absent |
| TodoModel.TodoTable.Create | src/models/todoModel.js:29-35 | appends exactly one row with a never-issued id, the given title, completed 0 and the stored priority; returns that row, which a lookup of its id then finds; other rows are unchanged; fails without change once the largest id has been issued |
| TodoModel.TodoTable.Update | src/models/todoModel.js:36-56 | an unknown id returns absent and changes nothing; otherwise only the target row changes, by the merge, and the returned row is the stored one |
| TodoModel.TodoTable.Delete | src/models/todoModel.js:57-60 | returns true exactly when a row had the id; afterwards no row has it, other rows are unchanged, issued ids stay issued |
| TodoController.CheckTitle | src/controllers/todoController.js:26-29 | a title is accepted exactly when present and holding a non-whitespace character; the accepted title is the trimmed one, never empty |
| TodoController.Designated | src/controllers/todoController.js:16 | the row a path id designates is a stored row whose id the path spells; none is designated exactly when the path is not a number or no row has that id |
| TodoController.GetAll | src/controllers/todoController.js:4-12 | a fault is forwarded; otherwise one 200 response listing exactly the table's rows, newest first |
| TodoController.GetById | src/controllers/todoController.js:14-22 | a fault is forwarded; otherwise 404 "Todo not found" when no row is designated, else 200 with exactly that row |
| TodoController.Create | src/controllers/todoController.js:24-35 | a missing or blank title gives 400 "Title is required" with the table unchanged, even when storage would fail; a fault is forwarded with the table unchanged; otherwise 201 with the new row holding the next id, the trimmed title and the stored priority, appended to the table, with the counter and the issued ids advanced to the new id |
| TodoController.Update | src/controllers/todoController.js:37-45 | the body reaches the table unchanged and unvalidated; 404 with the table unchanged when no row is designated, else 200 with the merged row; a fault is forwarded |
| TodoController.Delete | src/controllers/todoController.js:47-55 | 404 when no row is designated, with the rows, counter and issued ids unchanged; else 200 "Todo deleted successfully" with that row removed and the counter and issued ids kept; a fault is forwarded with the table unchanged |
| TodoController.PaddedTitleAccepted | src/controllers/todoController.js:26-30 | a title made of any whitespace around a core with non-whitespace ends is accepted as exactly that core |
| TodoController.CreateScenario | src/controllers/todoController.js:24-31 | creating one todo on an empty table stores it under id 1 with completed 0 and priority "medium" |
| App.FaultStatus | src/app.js:19 | the status is the fault's tag when non-zero, else 500; never 0 |
| App.FaultBody | src/app.js:19 | the body is always a non-empty error message: the fault's when it has one, exactly "Unknown error" when it is empty |
| App.Deliver | src/app.js:17-20 | a handler's response goes out as it is; a forwarded fault always gets a non-zero status (its tag when non-zero, else 500) and a non-empty error message (its own when non-empty) |
| App.UntaggedFaultIs500 | src/app.js:19 | an untagged fault reaches the client as 500 with its message |
| App.TableFullIs500 | src/app.js:19 | running out of ids on create reaches the client as 500 |

## Left out

- The SQLite engine, better-sqlite3 and dotenv (src/models/todoModel.js:2-7, src/db.js) are replaced by the in-memory table. SQL text and prepared statements are not modelled. The two separate database handles opened by src/models/todoModel.js:7 and src/db.js:6 are modelled as one table.
- The service layer (src/services/todoService.js) forwards every call unchanged. The handlers call the table directly.
- Express routing, JSON body parsing, the health-check endpoint and `listen` (src/app.js, src/routes/todoRoutes.js) are HTTP plumbing and are left out.
- `async`/`await` is left out: every call is sequential, and a rejected promise is the `fault` parameter.
- Console logging has no behaviour and is left out.
- `CURRENT_TIMESTAMP` is the `now` parameter of create: an integer count of seconds, not the engine's text format. The table sorts on every read, so no monotone clock is assumed.
- Storage faults other than AUTOINCREMENT exhaustion are not derived from the engine's state. They are a parameter of each handler.
- A storage fault is modelled as raised before the handler's first statement, so a forwarded fault always leaves the table unchanged. A fault in the re-read that follows a successful INSERT (src/models/todoModel.js:33-34) or UPDATE (src/models/todoModel.js:46-55) is not modelled: there the row is already stored or changed while the handler forwards the error.
- Body fields of a non-string type are not modelled: a numeric title would make `trim` throw, and a boolean `completed` would make the driver refuse to bind it. So are the engine's type-affinity conversions of `completed`.
- Text.ParseId: only plain decimal digit strings match an id. Other spellings the engine would coerce to the same integer, such as "+1", "1.0" or " 1", are treated as matching no row.
- TodoModel.TodoTable.Create: takes `title` as a string, so a null title reaching the repository (the `NOT NULL` failure) is not modelled. The handler never passes one.
- TodoModel.TodoTable.GetAll: the order among rows with equal created_at is the sort's own. The engine promises no order there, and the contract promises none either.
- Express's refusal of an out-of-range `err.status` is not modelled: App.FaultStatus passes any non-zero tag through.
