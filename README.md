# Note service model

A Dafny model of a small note-taking HTTP service (`main.py`, FastAPI). Each
note lives in its own file `notes/<id>.json` as the record
`{id, text, created_at, updated_at}`. A token file `tokens.json` maps arbitrary
labels to accepted tokens. Every handler first authenticates the caller's
`token` query parameter and then creates, reads, updates, deletes or lists notes.
The list handler cannot be reached over HTTP as the routes are registered
(see "## Findings"); the model states what it computes all the same.

The model has three modules:

- `NoteStore` (`note_store.dfy`) holds the state's value types and the
  read-only logic. The note directory is a `map<NoteId, Note>` and the token
  file is an `Option<map<string, string>>` (`None` when the file does not
  exist). It contains `authenticate`, the start-up token initialisation,
  `get_note`, `get_note_info` and `list_notes`, plus the lemmas about listing.
  Endpoint answers are `Outcome<T>`: `Ok(value)`, `Unauthorized(detail)` (HTTP
  401 with its detail message) or `NotFound` (HTTP 404).
- `NoteService` (`note_service.dfy`) holds the class `Service`. Its fields
  `notes` and `tokens` are the directory and the token file. Its constructor
  is process start-up. Its methods `CreateNote`, `UpdateNote` and `DeleteNote`
  change `notes` step by step, as the endpoints do. `HelloWorldSession` is a
  client of the class: it runs create, get, update, get, delete, get in a row.
- `NoteRoutes` (`note_routes.dfy`) models how a request finds its handler.
  Routes are tried in registration order and the first route whose method and
  path both match wins. A path parameter such as `{note_id}` takes any one
  non-empty segment.

The store invariant `StoreValid` says two things. The `id` inside every record
equals the key it is stored under. Every key is the text of a version-4 UUID,
so it contains no `.`. The second part lets `list_notes` recover each id from
its file name with `split(".")[0]`, which the model writes as `Stem`.

## Model

| member | source | states |
|---|---|---|
| `NoteStore.Authenticate` | main.py:32-39 | Succeeds exactly when the token file exists and some label maps to the token, whatever the label. A missing file gives 401 "Unauthorized". A token missing from the file's values gives 401 "Invalid token". |
| `NoteStore.InitTokenFile` | main.py:41-44 | The start-up result always has a token file. An existing file is kept unchanged. A missing one becomes a one-entry file under which exactly the token "test_token" authenticates. |
| `NoteService.Service.constructor` | main.py:42-44 | At start-up the note store is kept as found and satisfies the invariant. The token file is never overwritten when present. When it was absent, "test_token" authenticates afterwards. |
| `NoteStore.GetNote` | main.py:61-69 | Any auth failure gives 401 whether or not the id exists, so auth wins over 404. An authorised missing id gives 404. Otherwise the answer is the id and text stored in the record; on a valid store that id is the requested one. |
| `NoteStore.GetNoteInfo` | main.py:71-79 | The same auth-then-404 order. On success the answer is the record's two timestamps, unchanged. |
| `NoteService.Service.CreateNote` | main.py:47-59 | Auth failure leaves the store unchanged. Otherwise exactly one key is added, the fresh id, and every other note is unchanged. The new record holds that id, the submitted text and the two clock readings. A following get returns that id and text, and a following get-info returns both timestamps. The invariant is kept. |
| `NoteService.Service.UpdateNote` | main.py:81-93 | Auth failure gives 401 and a missing id then gives 404, both leaving the store unchanged. On success only `text` and `updatedAt` of that record change. `id` and `createdAt` are kept, every other note is unchanged, and a get returns the new text. |
| `NoteService.Service.DeleteNote` | main.py:95-102 | Auth failure gives 401 and a missing id then gives 404, both leaving the store unchanged. On success exactly that key is removed, and a get on it then gives 404. |
| `NoteStore.ListNotes` | main.py:104-109 | Fails with 401 exactly when authentication fails, with `authenticate`'s detail, and never answers 404. For any directory listing, success has the keys `0..n-1` with n the number of entries, and key i holds entry i's name up to its first `.`. |
| `NoteStore.Stem` | main.py:108 | `name.split(".")[0]` is a prefix of the name without any `.`. It is either the whole name or it stops right before the first `.`. |
| `NoteStore.StemOfFileName` | main.py:108 | For an id without `.`, the stem of its file name `id + ".json"` (written at line 57) is the id itself. |
| `NoteStore.NoteIdsOfFileNames` | main.py:107-108 | Applying the list comprehension to the file names of dot-free ids gives back those ids in the same order. |
| `NoteStore.EnumerateContents` | main.py:109 | The dict comprehension over `enumerate` has keys `0..n-1`. Each key maps to the element at that position, so the values are exactly the elements. |
| `NoteStore.EnumerationLength` | main.py:107 | A directory listing that names every stored note exactly once has one entry per note. |
| `NoteStore.UuidTextHasNoDot` | main.py:50 | The text of a UUID as generated contains no `.`. |
| `NoteStore.ListNotesOfStore` | main.py:104-109 | Take any listing order of a valid store's files. The answer's keys are `0..n-1` with n the number of notes. Position i holds the i-th listed id. The values are exactly the store's keys. |
| `NoteStore.DeletedNoteNotListed` | main.py:95-109 | After a delete, in whatever order the remaining files are listed, the deleted id is not among the listed values. |
| `NoteStore.CreatedNoteListed` | main.py:47-109 | After a create, in whatever order the files are listed, the new id is among the listed values. |
| `NoteRoutes.Dispatch` | main.py:47-104 | A request goes to the first registered route whose method and path match. It gets no route exactly when none matches. |
| `NoteRoutes.ListRouteMatchesOnlyListPath` | main.py:104 | The list route matches `GET /notes/list` and no other request. |
| `NoteRoutes.ListPathDispatchAsRegistered` | main.py:61-104 | With the registered order, `GET /notes/list` goes to `get_note` with the id "list". |
| `NoteRoutes.ListRequestReachesGetNote` | main.py:61-109 | With the registered order, `GET /notes/list` is answered by `get_note("list")`. On a store the service wrote, that answer is 401 or 404 and never a listing. |
| `NoteRoutes.ListNotesUnreachableAsRegistered` | main.py:61-109 | With the registered order, no request of any method and path reaches `list_notes`. |
| `NoteRoutes.ListRequestReachesListNotes` | main.py:104-109 | With `GET /notes/list` registered ahead of `GET /notes/{note_id}`, that request reaches `list_notes`. |
| `NoteRoutes.IntendedRoutesAgreeElsewhere` | main.py:47-104 | Moving the list route ahead changes the handling of `GET /notes/list` only. Every other request reaches the same handler with the same arguments. |
| `NoteRoutes.DispatchSkipsNonMatching` | main.py:47-104 | Inserting a route that does not match a request anywhere in the table leaves that request's dispatch unchanged. |
| `NoteRoutes.DispatchUsesTableHandlers` | main.py:47-104 | A handler that no route in the table names is never dispatched to. |
| `NoteService.HelloWorldSession` | main.py:47-102 | On a fresh service with the default token: create "hello" returns the new id, and get gives back that id with "hello". Update to "world" succeeds and get then gives "world". Delete succeeds, and a final get gives 404. |

## Left out

- Request parsing and response models (FastAPI, pydantic) are not modelled. Each endpoint is a method or function whose parameters are the path, body and query values. Routing is modelled only as far as choosing the handler. A path that matches a route for another method, which gives 405, is not modelled.
- Reading and writing files and JSON encoding are not modelled. `open`, `json.load`/`json.dump`, `os.makedirs`, `os.path.exists` and `os.remove` become operations on the two maps. A malformed stored record, which surfaces as HTTP 500 in the service, is not modelled.
- `uuid.uuid4()` is not modelled as a random generator. The new id is a parameter of `CreateNote`. Its requires says the id is UUID text not already in the store, which stands in for the generator's uniqueness.
- `datetime.utcnow().isoformat()` is not modelled as a clock. Timestamps are opaque string parameters. `CreateNote` takes two of them because `create_note` reads the clock twice (main.py:54-55). So the model does not promise `created_at == updated_at` after a create, nor `updated_at > created_at` after an update, because neither ISO-8601 formatting nor clock order is modelled.
- The order of `os.listdir` is unspecified, so `ListNotes` takes the directory listing as a parameter. The listing lemmas hold for every duplicate-free order of the stored files.
- `NoteStore.ListNotes`: the result keys are naturals. If the handler were reachable, its JSON encoding would turn them into the strings "0", "1", …; that conversion is not modelled.
- The directory holding files that the service did not write is not modelled. This includes path traversal through crafted ids in `os.path.join` and foreign files in `notes/`. `StoreValid`, which the constructor requires, says that every stored file is a record the service wrote.
- Concurrent requests and their races are not modelled. The service has no locking, and the model treats every request as one atomic step.

## Findings

| source | as written | input that shows it | evidently intended | confidence | as-written member | corrected member |
|---|---|---|---|---|---|---|
| main.py:61-109 | `GET /notes/{note_id}` is registered before `GET /notes/list`, so its parameter takes the segment "list" | `GET /notes/list?token=test_token` is answered by `get_note("list")`: 404 "Note not found", or 401 with a bad token | `GET /notes/list` answers with the listing of `list_notes` | high (not executed) | `NoteRoutes.ListNotesUnreachableAsRegistered`, `NoteRoutes.ListRequestReachesGetNote` | `NoteRoutes.ListRequestReachesListNotes`, `NoteRoutes.IntendedRoutesAgreeElsewhere`, `NoteStore.ListNotesOfStore` |
