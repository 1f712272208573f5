# Employee records: a verified model

This project models the core of a small employee-records application. The backend is an Express service over one SQLite table, `employees`. Its four routes under `/employees` list, create, update and delete rows. The client is a React page. It holds the list, an add/edit form and the id being edited, and drives those four routes.

The model has seven modules:

- `Table` holds the row type, the request body and the three SQL statements as pure functions over the rows in rowid order. `InsertRow` is the INSERT, `UpdateWhere` the UPDATE and `DeleteWhere` the DELETE. The lemmas cover ids, no-ops, idempotence and row counts.
- `Db` holds the `Database` class for the SQLite file behind `initDB`. Its fields are `tableExists`, `rows` and `lastId`, the AUTOINCREMENT counter that SQLite keeps in `sqlite_sequence`. A ghost set `issued` records every id ever handed out. `Valid()` says the ids are ascending, hence unique. It also says every present id was issued and every issued id lies in `1..lastId`.
- `Routes` holds the four handlers. Each runs `initDB`, one statement and a fixed JSON reply.
- `Email` holds `isValidEmail` as the language of its regex, and proves what that language is.
- `Client` holds the `App` class: the state cells `employees`, `form` and `editId`, the open delete prompts, and one method per handler.
- `System` ties client and server together. After every successful mutation, the client's refetched list equals the store's rows.
- `Wrappers` holds `Option`.

Choices that follow the code and SQLite rather than a looser reading:

- A new id is `lastId + 1`, one above the largest id ever issued. It is never the id of a deleted row. Once the counter reaches 2^63-1 the INSERT fails with SQLITE_FULL.
- SQLite checks NOT NULL only on rows a statement writes. So a body with a missing field makes PUT fail against a present id. Against a missing id the same PUT succeeds and changes nothing.
- A failed statement makes the awaited `db.run` throw before any reply is written. This is modelled as `Thrown`, and the client treats it as a response that is not ok.
- The code checks `editId` for truthiness, so an `editId` of 0 behaves as null.
- The browser validates the inputs before `onSubmit` fires (`Client.App.SubmitButton`). All four are `required`. The salary input shows `''` while the salary is 0, so a salary of 0 is blocked. It is also `type="number" min="0"` with the default step of 1, so a negative salary (one loaded by Edit) or a fractional one (which the change guard accepts) is blocked too.

## Model

| member | source | states |
|---|---|---|
| Table.InsertRow | backend/src/routes/employees.ts:16 | one row more; the old rows stay in place and the new last row carries the body's values under the given id; nothing else appears |
| Table.UpdateWhere | backend/src/routes/employees.ts:23 | same length; each row whose id matches now holds exactly the body's four values under the same id; every other row is unchanged |
| Table.DeleteWhere | backend/src/routes/employees.ts:29 | a row survives iff it was in the table and its id differs from the deleted one; the table never grows |
| Table.UpdateKeepsIds | backend/src/routes/employees.ts:23 | UPDATE changes no id: ids are equal position by position and as a set |
| Table.UpdateMissingIsNoop | backend/src/routes/employees.ts:23-24 | UPDATE on an id no row has leaves the table identical |
| Table.UpdateWithOwnValuesIsNoop | backend/src/routes/employees.ts:23 | writing back a row's own values leaves the table identical (no silent change of stored fields) |
| Table.InsertKeepsAscending | backend/src/db.ts:13 | appending a row whose id exceeds every present id keeps the ids ascending, and adds exactly that id to the id set |
| Table.DeleteMissingIsNoop | backend/src/routes/employees.ts:29-30 | DELETE of an absent id leaves the table identical |
| Table.DeleteIdempotent | backend/src/routes/employees.ts:29 | deleting twice gives the same table as deleting once |
| Table.DeleteIds | backend/src/routes/employees.ts:29 | DELETE removes exactly its id from the id set and no other |
| Table.DeleteKeepsAscending | backend/src/routes/employees.ts:29 | the surviving rows stay in ascending id order |
| Table.DeletePresentRemovesOne | backend/src/routes/employees.ts:29 | with unique ids, DELETE of a present id removes exactly one row |
| Db.Database.constructor | backend/src/db.ts:6-9 | a database file without the table: no rows, counter 0, no id issued |
| Db.Database.InitDB | backend/src/db.ts:11-19 | afterwards the table exists; rows, counter and issued ids are the same as before, and an existing table is left wholly unchanged |
| Db.Database.SelectAll | backend/src/routes/employees.ts:9 | returns exactly the stored rows, in ascending id order |
| Db.Database.Insert | backend/src/routes/employees.ts:16 | SQLITE_FULL at the largest rowid, a NOT NULL failure for a missing field, otherwise the body's row is appended under an id above every id ever issued; a failure changes nothing |
| Db.Database.Update | backend/src/routes/employees.ts:23 | a NOT NULL failure only when a present row would get a NULL; otherwise the table is UpdateWhere of the old one, or unchanged for a missing id |
| Db.Database.Delete | backend/src/routes/employees.ts:29 | always succeeds; the table is DeleteWhere of the old one; row count drops by one for a present id and stays for an absent one |
| Routes.GetEmployees | backend/src/routes/employees.ts:7-11 | status 200 with exactly the stored rows; the store is unchanged |
| Routes.PostEmployee | backend/src/routes/employees.ts:13-18 | 201 "Employee added" (no id in the reply) iff the body is complete and ids remain; then exactly one row with the body's values and a fresh id is added; otherwise it throws and nothing changes |
| Routes.PutEmployee | backend/src/routes/employees.ts:20-25 | "Employee updated" for a missing id with no change; for a present id, all four fields overwritten and ids kept, or a throw with no change if a field is missing |
| Routes.DeleteEmployee | backend/src/routes/employees.ts:27-31 | "Employee deleted" always; that id removed, other rows and the counter unchanged; a missing id is a no-op |
| Email.IsValidEmailCharacterization | frontend/src/App.tsx:26-28 | the regex accepts a string iff it has exactly one `@`, no whitespace, a non-empty part before the `@`, and a `.` inside the part after it that is neither first nor last |
| Email.AcceptsExampleAddress | frontend/src/App.tsx:27 | "ada@example.com" is accepted |
| Email.RejectsNotAnEmail | frontend/src/App.tsx:33-36 | "not-an-email" is refused, so submitting it sends nothing |
| Client.FormBody | frontend/src/App.tsx:43 | the body built from the form is complete, and the row it creates carries the form's four values |
| Client.SubmitRequest | frontend/src/App.tsx:33-44 | no request iff the email is invalid; otherwise PUT to `editId` iff `editId` is truthy and POST otherwise, with the form as body |
| Client.ZeroEditIdActsAsNull | frontend/src/App.tsx:38-39 | an `editId` of 0 yields the same request as null |
| Client.App.constructor | frontend/src/App.tsx:14-16 | empty list, empty form, no `editId`, no prompts |
| Client.App.FetchEmployees | frontend/src/App.tsx:18-22 | the fetched list replaces `employees` wholesale; nothing else changes |
| Client.App.HandleSubmit | frontend/src/App.tsx:30-54 | sends SubmitRequest of the old state; an invalid email changes nothing; an ok response resets form and `editId` and replaces the list; any other outcome changes nothing |
| Client.App.SubmitButton | frontend/src/App.tsx:106-145 | the browser's validation (`required`, `min="0"`, step 1) gates `handleSubmit`: an empty field, a salary of 0, a negative or a fractional salary sends nothing; otherwise it sends SubmitRequest of the old state |
| Client.FractionalSalaryBlocked | frontend/src/App.tsx:127-137 | a salary of 1234.5, which the change guard accepts, still fails the browser's step check |
| Client.App.HandleEdit | frontend/src/App.tsx:94-97 | the form becomes the row's fields and `editId` its id; no request, list unchanged |
| Client.App.Clear | frontend/src/App.tsx:147-152 | the form is reset and `editId` cleared; no request, list unchanged |
| Client.App.NameChanged | frontend/src/App.tsx:109 | only the name changes |
| Client.App.EmailChanged | frontend/src/App.tsx:116 | only the email changes |
| Client.App.DepartmentChanged | frontend/src/App.tsx:123 | only the department changes |
| Client.App.SalaryChanged | frontend/src/App.tsx:132-137 | the salary becomes the parsed value only when it is a number and at least 0; otherwise the form is unchanged |
| Client.App.HandleDelete | frontend/src/App.tsx:56-92 | opens a confirmation prompt for the id; no request and no state change |
| Client.App.CancelDelete | frontend/src/App.tsx:62-63 | closes the prompt; no request, nothing else changes |
| Client.App.ConfirmDelete | frontend/src/App.tsx:69-77 | sends DELETE for the prompt's id and closes it; the list is refetched on ok and kept otherwise; form and `editId` are untouched |
| System.Mount | frontend/src/App.tsx:24 | after mounting, the client list is exactly the store's rows |
| System.Submit | frontend/src/App.tsx:30-54 | a form the browser blocks sends nothing; after a successful POST or PUT, the client list equals the store's rows and the form is reset; on failure neither side changes; PUT to a deleted row reports success and leaves the store as it was |
| System.ConfirmDelete | frontend/src/App.tsx:69-77 | confirmed delete always succeeds, removes the row from the store, and leaves the client list equal to the store's |
| System.AdaScenario | backend/src/routes/employees.ts:7-31 | create Ada, update her salary to 95000, then delete her: the list reads back one row with id 1, then the raised salary, then empty |

## Left out

- `SELECT * FROM employees` has no `ORDER BY`, so SQL leaves the order of the rows open. The model takes it to return rows in rowid order, which is what SQLite's full-table scan does.
- Process wiring in `backend/src/index.ts`: CORS, JSON parsing, mounting under `/employees` and listening on port 4000. It holds no logic.
- The SQLite driver, opening `./employees.db` per request, and file I/O. Only the table semantics that the SQL text and the schema imply are modelled.
- SQLite type affinity. Field values are taken as already having their column's type (text, or real for salary). The path parameter `:id` is taken as an integer, not as the string the driver coerces.
- What a client sees when a handler throws. In the source the awaited `db.run` rejects and no JSON is written. The model stops at `Thrown` and lets the client treat it as not ok.
- async/await, `fetch`, promise rejection and transport errors. A request and its response are one step, and the response's `ok` is a parameter.
- The client-side refetch is not awaited in the source. The model applies it in the same step.
- Toast notifications and their wording, rendering, salary formatting, button labels, and focus/select behaviour.
- Floating point and `Number()`/`isNaN` parsing. Salary is a `real`, and the parsed input is an `Option<real>` with `None` for NaN.
- JSON serialisation. After `handleEdit` the form object also carries `id` into the PUT body, which the server ignores.
- Email.IsValidEmail: works on Unicode scalar values, not UTF-16 code units. A lone surrogate, which a Dafny string cannot hold, is not covered.
