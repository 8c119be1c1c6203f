# Task API record store and handlers, in Dafny

This project models the core of a small HTTP task-management API. The API keeps "task" records in a
JSON-file-backed in-memory store.

- **The record store** (`Store.Database`) keeps a map from table name to an ordered list of rows.
  It offers `select`, which returns all rows or only those where some search key's value contains
  the decoded term, ignoring case. It offers `selectByID`, a linear scan for the first row with an id.
  It offers `insert` (append, creating the table), `update` (replace the first row with the same id,
  at its index) and `delete` (splice out the first row with the id). After every successful write
  the whole store is written to the file. The file is modelled by the field `disk` and a ghost count
  `writes`; `Valid()` says the file mirrors memory.
- **The handlers** (`Routes.TaskRoutes`) share the one store. Each handler returns an `Outcome`: a
  status code with a body, or the exception that escapes it. The task id and the clock readings are
  parameters.
  - GET lists or searches the tasks.
  - POST validates the title, then the description, then appends the new task.
  - PUT replaces only the valid fields and refreshes `updated_at`.
  - PATCH flips `completed_at` between null and now.
  - DELETE answers 204 or 404.

JavaScript exceptions are values of `Result`/`Outcome`:

- `selectByID`, `update` and `delete` call `findIndex` on `this.#database[table]` with no default.
  On a missing table they throw `TypeError`. A store started without a data file has no `tasks`
  table until the first successful POST. Until then, PUT, PATCH and DELETE throw instead of answering
  404. The contracts of `Routes.TaskRoutes.Put`, `Patch` and `Delete` state this.
- `decodeURIComponent` throws `URIError` on a malformed escape. The filter decodes inside its
  per-row callback, and `some` stops at the first hit. So an undecodable term throws only when
  there is at least one row to test. On an empty table, GET still answers 200 with `[]`.

Where the documented behaviour of the API and the code differ, the model follows the code:

- PATCH does not refresh `updated_at`. `Routes.Toggle` keeps it, and `Routes.ToggleTwice` gives back
  the task unchanged.
- `created_at` and `updated_at` of a new task are two separate clock readings. POST takes both as
  parameters, and nothing claims they are equal.
- The handlers do not check that a new id is fresh. Properties that need a fresh id, such as
  "`selectByID` after POST returns the created task" and "ids stay unique", are stated under that
  condition.

## Model

| member | source | states |
|---|---|---|
| Text.Lower | src/database.js:30 | lower-casing keeps the length, turns each letter `A`-`Z` into its lower-case letter and changes no other character |
| Text.LowerIgnoresCase | src/database.js:30 | two strings that differ only in the case of their letters lower-case to the same string, so the search ignores case |
| Text.LowerIdempotent | src/database.js:30 | lower-casing an already lower-cased string changes nothing |
| Text.ContainsAt | src/database.js:30 | `includes` holds exactly when the term occurs at some position of the string |
| Text.ContainsEmpty | src/database.js:30 | every string includes the empty term |
| Text.DecodePlain | src/database.js:29 | a term without `%` decodes to itself |
| Text.DecodeTruncatedEscape | src/database.js:29 | a trailing `%` makes decoding throw |
| Text.DecodeEncode | src/database.js:29 | decoding undoes the client's `encodeURIComponent` on ASCII text |
| Store.FindIndex | src/database.js:39 | `findIndex` gives the first row with the id, or -1 exactly when no row has it |
| Store.DecodeAll | src/database.js:28-29 | every search value decodes, pairwise with its key, or some value does not |
| Store.AnyMatchesDecoded | src/database.js:28-31 | once the values decode, the filter callback answers whether some key's lower-cased value contains its lower-cased term |
| Store.AnyMatchesThrows | src/database.js:29 | the only exception the callback raises is `URIError` |
| Store.FilterRowsSelects | src/database.js:27-32 | with decodable values the filter returns exactly the matching rows, as an order-preserving subsequence |
| Store.FilterRowsThrows | src/database.js:27-32 | the filter throws only on a non-empty table with an undecodable value, and does throw when the first value is undecodable |
| Store.AppendFresh | src/database.js:50 | appending a row with a fresh id keeps ids unique and makes that row the one found by id |
| Store.ReplaceFirst | src/database.js:66 | writing a row back at the index of its id keeps it the row found and keeps ids unique |
| Store.RemoveFirst | src/database.js:78 | splicing out the row with a unique id shortens the list by one, leaves no row with that id and keeps ids unique |
| Store.Database.constructor | src/database.js:9-17 | the store starts as the parsed file, or empty with one write of the empty store when the file is missing or unreadable |
| Store.Database.Persist | src/database.js:19-21 | a write makes the file hold the current store and changes no table |
| Store.Database.Select | src/database.js:23-36 | without a search all rows; with one, the matching rows in order; a missing table gives `[]`; the only failure is an undecodable term, and an undecodable first term does throw `URIError` when the table has a row |
| Store.Database.SelectByID | src/database.js:38-46 | on an existing table, null exactly when no row has the id and otherwise the first row with it; `TypeError` exactly when the table is missing, and no other exception |
| Store.Database.Insert | src/database.js:48-58 | the row is appended to the table, created if missing; it returns the row, changes no other table and writes once |
| Store.Database.Update | src/database.js:60-72 | the first row with the row's id is replaced at its index and written once; otherwise null or `TypeError` with nothing changed and nothing written |
| Store.Database.Delete | src/database.js:74-84 | true and the first row with the id spliced out and written once; otherwise false or `TypeError` with nothing changed and nothing written |
| Store.Restart | src/database.js:9-13 | reading back the file after a restart gives the same tables |
| Routes.ValidateTitle | src/routes.js:132-134 | a title is valid exactly when present and non-empty |
| Routes.ValidateDescription | src/routes.js:136-138 | a description is valid exactly when present and non-empty |
| Routes.BlankIsValid | src/routes.js:132-138 | white-space-only values are valid, since nothing is trimmed; only absence and `""` fail |
| Routes.DecodeSearch | src/routes.js:16 | GET's two search values decode exactly when the term does |
| Routes.SearchMatchesTitleOrDescription | src/routes.js:16 | GET's search matches a task exactly when its title or its description contains the term, ignoring case |
| Routes.Merge | src/routes.js:81-88 | PUT replaces the title exactly when the new one is valid, and likewise the description; it sets `updated_at` and keeps id, `completed_at` and `created_at` |
| Routes.Toggle | src/routes.js:108-109 | PATCH sets `completed_at` to now when it was null and to null otherwise, and changes nothing else |
| Routes.ToggleTwice | src/routes.js:108-109 | completing twice from "not completed" gives back the same task |
| Routes.TaskRoutes.constructor | src/routes.js:5 | the handlers share one store, loaded as the store's constructor says |
| Routes.TaskRoutes.Get | src/routes.js:11-20 | 200 with all tasks when `search` is absent or empty; else 200 with exactly the matching tasks in order, or `URIError` for an undecodable term on a non-empty table |
| Routes.TaskRoutes.Post | src/routes.js:25-54 | 400 "Title is required", else 400 "Description is required", with the store untouched; else 201 with the new task appended, and with a fresh id it is then found by id; every task keeps a non-empty title and description |
| Routes.TaskRoutes.Put | src/routes.js:59-92 | 400 with the store untouched when neither field is valid; `TypeError` without a tasks table; 404 for an unknown id; else 200 with the merged task stored at the same index; every task keeps a non-empty title and description |
| Routes.TaskRoutes.Patch | src/routes.js:97-113 | `TypeError` without a tasks table; 404 for an unknown id; else 200 with the toggled task stored at the same index; every task keeps a non-empty title and description |
| Routes.TaskRoutes.Delete | src/routes.js:118-128 | 204 and the task removed exactly when the id exists; with unique ids it is then not found; else 404 or `TypeError` with the store untouched; every task keeps a non-empty title and description |

## Left out

- File I/O and JSON: `fs.readFile`, `fs.writeFile`, `JSON.parse` and `JSON.stringify` are not modelled. The file is the field `disk`, holding the tables as values. The serialisation of `Date` values to ISO strings on reload is not modelled.
- Store.Database.constructor: models the store once the asynchronous startup read has settled. Requests served before then see an empty store; that window is not modelled.
- Write failures, the fire-and-forget nature of `#persist`, interleaving of the asynchronous handlers around `await`, and concurrent writers are not modelled.
- Rows are fixed to the task record. The source store holds arbitrary JSON objects. Search keys are limited to the string fields id, title and description. In the source, a search on a key that is absent from a row or not string-valued throws, for example `completed_at` (null or a `Date`); a search on `created_at` or `updated_at` after a restart, when they are ISO strings, does not. Neither case is modelled.
- Text.Lower: folds only the ASCII letters. `toLowerCase` folds all of Unicode.
- Text.Decode: decodes only single-byte escapes. Escapes of bytes `%80` and above are reported as `URIError`. `decodeURIComponent` decodes a valid UTF-8 sequence of them.
- Routes.ValidateTitle: request-body fields are absent or strings. A JSON array or an object with a `length` property can pass the source's check; such values are not modelled. The same holds for Routes.ValidateDescription.
- A request without a body, which makes the destructuring of `req.body` throw, is not modelled.
- `randomUUID()` and `new Date()` are parameters. Their uniqueness and monotonicity are not assumed.
- PUT and PATCH assign fields of the row object that `selectByID` returned, which is the stored row itself, and then write it back through `update`. The model builds the new row as a value and writes it back at the same index. It does not model the aliasing itself, which is unobservable here because `update` finds the same index.
- Route matching (`buildRoutePath`), query and body parsing, and response serialisation are not modelled; src/utils/build-route-path.js is not part of this model. GET's status 200 is the default status of `res.end`.
- The unused `escape` import is not modelled.
