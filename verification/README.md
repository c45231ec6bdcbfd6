# Notes app: service handlers and client view state

A Dafny model of the note-taking application's two pieces of logic:

- the **notes service** (`backend/src/handlers/notesHandler.js`): five HTTP
  handlers over a single `notes` table (list, create, read, update, delete),
  each modelled as a pure function from a request and the table to a
  response envelope and the new table;
- the **notes client** (`frontend/src/App.jsx`): the title search filter,
  the in-place patch after an update, the re-fetch rule after add and
  delete, the empty-list message and the create-form reset.

Modules:

| file | module | what |
|---|---|---|
| `wrappers.dfy` | `Wrappers` | `Option`, standing for JavaScript `undefined` and for a computation that throws |
| `text.dfy` | `Text` | `trim`, `toLowerCase` (ASCII) and `includes`, with their meaning |
| `sql.dfy` | `Sql` | the table (`map<nat, Note>` plus the AUTO_INCREMENT counter) and the five statements the handlers send |
| `notes.dfy` | `Notes` | the handlers and their JSON envelopes |
| `client.dfy` | `Client` | the client's view-state functions |
| `sync.dfy` | `Sync` | properties spanning service and client |

Modelling choices:

- The table is `Store(rows: map<nat, Note>, nextId: nat)`. The counter
  starts at 1 and only grows, so ids are never reused. `SELECT * FROM notes`
  has no `ORDER BY`. It is modelled as ascending primary-key order, which is
  the order the engine's clustered index yields.
- `title` and `content` columns are `Option<string>`, with None for SQL
  NULL. Update validates nothing, and the driver's `query` renders an
  `undefined` parameter as `NULL`, so a missing field reaches the table as
  NULL. The table schema is not part of this model.
- A JSON envelope is a `map<string, Value>`. A key whose value is
  `undefined` is absent, as after `JSON.stringify`.
- The DELETE result is a result header, not a row list. `QueryResult.LengthIs`
  models `result.length === n`, which is false for a header because it has
  no `length`.
- The client's `notes` array is a `seq<Slot>`, where `Undefined` is an entry
  the update patch overwrote with a missing `data`. `FilterByTitle` and
  `PatchById` return None where the JavaScript callback would throw on such
  an entry or on a NULL title.
- `created_at` is an opaque `Timestamp` passed in as `now`, standing for the
  database clock at insert time.
- Create rejects blank titles and contents. Update stores whatever it is
  sent (`Sync.UpdateMayStoreBlank`).
- The create form's two fields carry the HTML `required` attribute. While
  either is "", the browser fires no submit event, so `Client.Submit`
  returns None and nothing is sent.

## Model

| member | source | states |
|---|---|---|
| Text.Trim | backend/src/handlers/notesHandler.js:18 | `trim` yields a contiguous infix of the input with no whitespace at either end |
| Text.BlankIffAllSpace | backend/src/handlers/notesHandler.js:18-30 | a field fails the `!v.trim()` test exactly when it is whitespace only |
| Text.Lower | frontend/src/App.jsx:347 | `toLowerCase` keeps the length and folds each ASCII capital to its small letter |
| Text.Includes | frontend/src/App.jsx:346-348 | `includes` is true iff the needle occurs at some offset of the haystack |
| Sql.Execute | backend/src/handlers/notesHandler.js:5-98 | `SELECT *` returns the listing and SELECT by id the matching row, both leaving the table alone; INSERT stores the new row under the counter's id and reports it; UPDATE writes the new title/content into the named row; UPDATE and DELETE report 1 affected row iff the id was stored; DELETE drops exactly the named id; every other row keeps its value; only INSERT moves the counter |
| Sql.RowsWithId | backend/src/handlers/notesHandler.js:37-39 | SELECT by id returns at most one row, exactly one iff the id is stored, and that row is the stored one |
| Sql.ExecutePreservesValid | backend/src/handlers/notesHandler.js:5-98 | every statement keeps rows under their own id and the counter above every id |
| Sql.ExecuteResultShape | backend/src/handlers/notesHandler.js:98-100 | only SELECTs yield a row list, and SELECTs change nothing; writes yield a result header |
| Sql.InsertAddsOneRow | backend/src/handlers/notesHandler.js:32-35 | INSERT adds one row under a fresh id, reports that id, and leaves all other rows alone |
| Sql.DeletedIdNotReused | backend/src/handlers/notesHandler.js:32-35 | after a delete, the next insert never gets the deleted id |
| Sql.RowsBelowExact | backend/src/handlers/notesHandler.js:5 | the listing holds exactly the stored rows, strictly ascending by id |
| Sql.AllRowsExact | backend/src/handlers/notesHandler.js:5 | `SELECT *` lists exactly the table's rows, strictly ascending by id |
| Sql.InsertAppendsToListing | backend/src/handlers/notesHandler.js:32-35 | INSERT appends the new row at the end of the `SELECT *` listing |
| Notes.GetAllNotes | backend/src/handlers/notesHandler.js:4-11 | answers 200 with key `message:"success"` (not `status`) and every row as `data`; table unchanged |
| Notes.AddNote | backend/src/handlers/notesHandler.js:14-46 | missing or blank title: 400 "Title is required"; otherwise missing or blank content: 400 "Content is required"; table unchanged on both. Otherwise one untrimmed row under the fresh id, 201 with that row |
| Notes.GetNoteById | backend/src/handlers/notesHandler.js:49-65 | 404 `fail` "note not found" iff the id is absent, else 200 with the row; table never changes |
| Notes.UpdateNoteById | backend/src/handlers/notesHandler.js:68-92 | absent id: 404 and table unchanged; present id: only title/content replaced (id, created_at kept), no validation, 200 with the new row |
| Notes.DeleteNoteById | backend/src/handlers/notesHandler.js:95-111 | removes the row if present, keeps all others, and always answers 200 "success" |
| Notes.DeleteAbsentStillSucceeds | backend/src/handlers/notesHandler.js:98-110 | deleting an absent id still answers 200 `success` and changes nothing: the 404 branch is unreachable |
| Notes.DeleteNoteByIdIntended | backend/src/handlers/notesHandler.js:98-105 | with the guard on the affected-row count, the answer is 404 `fail` "note not found" (key `message`) iff the id was absent, and 200 "Note deletede successfully" iff it was present |
| Client.FilterByTitle | frontend/src/App.jsx:346-348 | the filter succeeds iff every entry has a title; every kept note's lower-cased title contains the lower-cased search |
| Client.FilterSelectsExactly | frontend/src/App.jsx:346-348 | the filter keeps exactly the matching entries, at strictly ascending positions, so the result is an order-preserving subsequence |
| Client.EmptySearchKeepsAll | frontend/src/App.jsx:346-348 | an empty search string keeps every note |
| Client.SearchIgnoresCase | frontend/src/App.jsx:346-348 | lower-casing the search string does not change the result |
| Client.PatchById | frontend/src/App.jsx:53-55 | same length; each entry with the target id becomes the server's `data`, every other entry is untouched; throws on an undefined entry |
| Client.PatchWithoutMatchIsIdentity | frontend/src/App.jsx:53-55 | if no entry has the id, the list is unchanged |
| Client.UpdateNotFoundBreaksList | frontend/src/App.jsx:45-55 | the patch runs even on a 404; the matching entry becomes undefined and the next search filter throws |
| Client.AfterUpdate | frontend/src/App.jsx:45-59 | after an update, each entry with the id becomes the answer's `data` (undefined when the answer has none), the rest are untouched; throws on an undefined entry |
| Client.PatchIgnoresStatus | frontend/src/App.jsx:47-55 | the patch result does not depend on the status code: `res.ok` is never consulted |
| Client.AfterMutation | frontend/src/App.jsx:23-43 | after add or delete, `notes` becomes the re-fetched list iff the response is ok (2xx), and is otherwise unchanged |
| Client.EmptyMessage | frontend/src/App.jsx:375-391 | no message when notes match; otherwise "Note tidak ditemukan." iff the search is non-empty, else "Belum ada Note. Tambahkan satu!" |
| Client.EmptySearchMessage | frontend/src/App.jsx:346-391 | with an empty search, "Belum ada Note. Tambahkan satu!" shows iff the client holds no notes |
| Client.NotFoundMessage | frontend/src/App.jsx:346-391 | with a non-empty search, "Note tidak ditemukan." shows iff no note's title matches it |
| Client.Submit | frontend/src/App.jsx:129-163 | nothing is sent while either `required` field is ""; otherwise the current title and content are sent and both fields reset to "" whatever the outcome |
| Client.ClearedFormIsBlocked | frontend/src/App.jsx:129-163 | after a submission the cleared form cannot be submitted again |
| Sync.AddPreservesNonBlank | backend/src/handlers/notesHandler.js:18-35 | create never stores a blank title or content |
| Sync.UpdateMayStoreBlank | backend/src/handlers/notesHandler.js:68-76 | update can store a whitespace title and a NULL content and still answer 200 |
| Sync.AddAppendsToListing | backend/src/handlers/notesHandler.js:32-45 | a successful create appends its row to the end of the full listing |
| Sync.SubmitReconciles | frontend/src/App.jsx:23-34 | an accepted form submission shows the new note last in the re-fetched list |
| Sync.RejectedSubmitKeepsList | frontend/src/App.jsx:23-34 | a submission the service rejects leaves both the client list and the table unchanged |
| Sync.WhitespaceTitleIsLost | frontend/src/App.jsx:129-134 | a whitespace-only title passes `required` but create answers 400 "Title is required"; table and list stay unchanged while the form is cleared, so the input is lost |
| Sync.FirstNoteGetsIdOne | backend/src/handlers/notesHandler.js:32-45 | on a fresh table the first created note gets id 1 and is the only listed row |
| Sync.UpdatePatchAgreesWithRefetch | frontend/src/App.jsx:45-55 | after a successful update, the local patch yields exactly what a re-fetch of the table would |
| Sync.DeleteListing | backend/src/handlers/notesHandler.js:98 | after delete, the listing holds exactly the previous rows whose id differs |
| Sync.DeleteAlwaysRefetches | frontend/src/App.jsx:36-43 | since delete always answers 200, the client always re-fetches after it |
| Sync.IntendedDeleteReconciles | frontend/src/App.jsx:36-43 | with the corrected delete guard, the client re-fetches iff the row existed; deleting an absent id leaves list and table unchanged |
| Sync.AddThenGet | backend/src/handlers/notesHandler.js:32-65 | after a successful create, reading the new id gives 200 with the stored fields |
| Sync.UpdateThenGet | backend/src/handlers/notesHandler.js:72-91 | after an update, reading the id gives the new fields with the original id and created_at |
| Sync.DeleteThenGet | backend/src/handlers/notesHandler.js:49-59 | after a delete, reading the id gives 404 "note not found" |

## Left out

- HTTP plumbing is not modelled. This covers the Express app, CORS, JSON
  middleware, `listen` (`backend/src/server.js`) and the route tables
  (`backend/src/routes/`). Each handler is an operation name.
- The connection pool (`backend/src/config/db.js`) is not modelled. The
  table is abstract. That module does not export `pool`, which the handlers
  import; the model assumes a working connection.
- Store faults and unhandled promise rejections are left out.
- Non-string `title`/`content` are left out. There `.trim()` would throw.
  Request fields are `Option<string>`.
- Parsing `req.params.id` is left out: ids are `nat`. A non-numeric id
  string compared by MySQL is not modelled.
- Text.Lower: folds ASCII letters only. Full Unicode case mapping is not
  modelled.
- The client's network and async ordering are left out. This covers
  `fetch`, `await` and swallowed errors. The re-fetched listing is a
  parameter of `Client.AfterMutation`.
- Rendering, styling, dark mode, modal state and `showFormattedDate` (a
  locale date formatter) are left out.
- `created_at` values are opaque: no clock ordering is claimed.
- Each handler's two queries are treated as one atomic step: INSERT then
  read-back (`backend/src/handlers/notesHandler.js:32-39`) and UPDATE then
  read-back (`:72-78`). They go through a shared pool, and a concurrent
  DELETE in between would make create answer 201 with no `data`.
  `Notes.WithFirst` covers that envelope, but the model never interleaves
  requests, so the case is not reached.
- Sync.UpdateMayStoreBlank: assumes the `title`/`content` columns accept
  NULL. With a NOT NULL column under strict SQL mode, an update with a
  missing field fails in the store and no response is sent. The schema is
  not part of this model.

## Findings

| source | as written | input that shows it | evidently intended | confidence | as-written member | corrected member |
|---|---|---|---|---|---|---|
| backend/src/handlers/notesHandler.js:100 | the not-found guard tests `deleteNotes.length === 0`; the DELETE result is a result header with no `length`, so the test is always false | `DELETE /notes/7` on a table without id 7 answers 200 "success" | answer 404 "note not found" when no row was deleted (affected rows 0) | not executed | Notes.DeleteAbsentStillSucceeds | Notes.DeleteNoteByIdIntended | backend/src/handlers/notesHandler.js:98-105 | with the guard on the affected-row count, the answer is 404 `fail` "note not found" (key `message`) iff the id was absent, and 200 "Note deletede successfully" iff it was present |

`Notes.DeleteNoteById` models the code as written and always answers 200.
`Sync.DeleteAlwaysRefetches` shows what the client does with that.
`Notes.DeleteNoteByIdIntended` is the corrected handler. Its 404 envelope
spells the key `message`; the unreachable branch as written spells it
`meesage`. `Sync.IntendedDeleteReconciles` shows the client with the
corrected handler: it re-fetches only when a row was deleted.
