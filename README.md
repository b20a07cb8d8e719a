# Academic event manager: the two event stores

This project models the two sequential event stores of the academic event manager, a small
FastAPI service for events (title, date, location, capacity, category). It proves properties
of both models.

1. **The CSV-backed store** (`app/services/event_service.py`), module `EventService` in
   `csv_store.dfy`. The CSV file is abstracted to `Option<seq<Row>>`. `None` means the file
   does not exist. Otherwise each row is the sequence of text fields the `csv` module reads,
   and a blank line is the empty row. The class `EventFile` holds the file, and each function
   of the service is a method that rewrites it. The methods are proved against specification
   functions:
   - `Ensured`: the rows after `ensure_csv`.
   - `StoredEvents`: what `read_events` returns.
   - `StoredCount`: what `count_events` returns.
   - `ReplaceById` and `RemoveById`: the events the two rewrites write.
   - `Table`: the header followed by one row per event.

   Lemmas connect these functions. A row written for a schema-valid event reads back as that
   event. A rewrite therefore reads back as exactly the events written.
   - Both rewrites start from what `read_events` returned, so they lose every row it skipped.
   - `count_events` counts every non-blank data row. It never reports fewer events than
     `read_events` returns, and it reports more as soon as one row fails to parse.
   - `update_event_csv` never reports an absent id.
   - `write_event` never checks for a repeated id.

   Event ids are UUIDs (module `Uuids`), kept as their 32 lower-case hexadecimal digits.
   Capacities are Python integers written as decimal text (module `Integers`). Both come
   with round-trip lemmas for their text form.

2. **The in-memory store**, module `MemoryStore` in `memory_store.dfy`. It covers
   `app/api/endpoints/event_router.py`, the router `app/main.py` mounts, and
   `app/api/endpoints/events.py`, a line-for-line copy with its own list. One `EventList`
   object stands for one module-level `events` list. Its methods mirror the five handlers:
   the append, index assignment and `pop` on the list, and the search loops with early
   return. Their postconditions state the whole new list: first-match semantics through
   `IndexOf`, the 404 cases with the list unchanged, and the length changes. Lemmas state
   what the handlers promise:
   - only the first match is updated or removed;
   - the other events keep their order;
   - the create id `len(events) + 1` is fresh while nothing has been deleted;
   - after a delete that id can repeat one still in the list. `IdReuseScenario` runs
     create, create, delete(1), create on a fresh list and ends with two events of id 2.

Three behaviours of the code worth knowing:

- `ensure_csv` does more than create a missing file. When the first row is not exactly the
  header, it writes the header in place of that row, and the old first row is lost.
- `update_event_csv` does not report an absent id. Only the update route of
  `app/routes/event_router.py` checks the id first (`EventFile.UpdateEventRoute`).
- Event ids in the in-memory store are not unique after a delete.

`csv.DictReader` skips blank lines. Both `read_events` and `count_events` therefore see only the
non-blank rows after the header. A row shorter than the header leaves fields at `None` and fails
to parse. Extra fields after the sixth are ignored.

## Model

| member | source | states |
|---|---|---|
| `EventService.EventFile.EnsureCsv` | app/services/event_service.py:14-41 | the new file is `Ensured` of the old one: the header alone if the file was absent, unchanged if its first row is the header, otherwise the header followed by the rows after the old first row |
| `EventService.Ensured` | app/services/event_service.py:19-41 | the file exists afterwards and its first row is exactly `id,title,date,location,capacity,category` |
| `EventService.EnsuredIdempotent` | app/services/event_service.py:29-41 | a second `ensure_csv` leaves the file as the first left it |
| `EventService.EnsuredKeepsData` | app/services/event_service.py:33-41 | every row after the first survives `ensure_csv`; a wrong first row is replaced, not shifted down, so the length stays the same |
| `EventService.ParseRow` | app/services/event_service.py:55-62 | a row that parses yields an event within the schema's 100/150 length bounds, and the row had all six fields |
| `EventService.ParseRowRejects` | app/services/event_service.py:54-65 | a row fails when a field is missing, the id is not a UUID, the capacity is not an integer, the title exceeds 100 characters or the location exceeds 150 characters |
| `EventService.ParsedEvents` | app/services/event_service.py:50-66 | the events read are all schema-valid and there is at most one per row |
| `EventService.EventFile.ReadEvents` | app/services/event_service.py:44-66 | the header is normalised and the result is the parsed data rows in file order, with every failing row skipped |
| `EventService.RecordCount` | app/services/event_service.py:142-143 | the count of records is at most the number of rows (blank rows are not records) |
| `EventService.EventFile.CountEvents` | app/services/event_service.py:135-143 | the header is normalised and the result counts every non-blank data row, parseable or not |
| `EventService.CountAtLeastRead` | app/services/event_service.py:140-143 | `count_events` is never below the number of events `read_events` returns |
| `EventService.CountExceedsReadOnBadRow` | app/services/event_service.py:50-66 | one non-blank row that fails to parse makes the count strictly larger than the events read |
| `EventService.EventRow` | app/services/event_service.py:77 | the row written for an event has one field per header column |
| `EventService.RowRoundTrip` | app/services/event_service.py:55-77 | a schema-valid event is read back unchanged from the row `write_event` writes for it |
| `EventService.EventFile.WriteEvent` | app/services/event_service.py:69-77 | the header is normalised, then exactly one row is appended at the end and every earlier row is unchanged |
| `EventService.WriteThenRead` | app/services/event_service.py:74-77 | after a write, `read_events` returns the old events followed by the new one, and the count grows by one |
| `EventService.WriteRepeatsId` | app/services/event_service.py:74-77 | the write does not check ids: writing an event whose id is stored leaves two events with that id |
| `EventService.EventFile.UpdateEventCsv` | app/services/event_service.py:80-96 | the file becomes the header plus one row per event `read_events` returned, in order, with every event whose id matches replaced |
| `EventService.ReplaceById` | app/services/event_service.py:90-96 | the update rewrites as many events as were read |
| `EventService.ReplaceByIdEffect` | app/services/event_service.py:91-96 | each event with the new event's id becomes the new event and every other event stays at its position |
| `EventService.UpdateAbsentKeepsEvents` | app/services/event_service.py:85-96 | with an absent id the events are unchanged, and no error is raised |
| `EventService.UpdateReadBack` | app/services/event_service.py:85-96 | after the update, `read_events` returns exactly the replaced event sequence |
| `EventService.TableRoundTrip` | app/services/event_service.py:87-96 | a rewritten file reads back as exactly the events written and counts exactly them |
| `EventService.EventFile.DeleteEventCsv` | app/services/event_service.py:99-119 | the file becomes the header plus the events read without the id, in order; 404 is raised exactly when no event had the id, after the rewrite |
| `EventService.RemoveById` | app/services/event_service.py:112-116 | no event with the deleted id is left, and the result is never longer than the input |
| `EventService.RemoveByIdSubset` | app/services/event_service.py:112-116 | nothing is added: every event left was in the input and does not carry the id |
| `EventService.RemoveByIdKeeps` | app/services/event_service.py:112-116 | every event without the id survives the delete |
| `EventService.RemoveByIdSize` | app/services/event_service.py:104-119 | deleting an absent id leaves the events as they were; deleting a present id shrinks them |
| `EventService.DeleteReadBack` | app/services/event_service.py:104-116 | after the delete, `read_events` returns the old events without the id, fewer of them when the id was present |
| `EventService.RewriteDropsSkippedRows` | app/services/event_service.py:85-116 | a rewrite built from `read_events` loses every non-blank row it skipped, so the count of the rewritten file falls |
| `EventService.UpdateDropsBadRowExample` | app/services/event_service.py:85-96 | a file whose one data row has a malformed id counts 1 and reads 0 events, and after any update it counts 0 |
| `EventService.EventFile.UpdateEventRoute` | app/routes/event_router.py:65-85 | the route answers 404 when `read_events` has no event with the id and leaves the file header-normalised; otherwise it rewrites through `update_event_csv` with the payload under that id |
| `Uuids.ParseUuid` | app/services/event_service.py:56 | an id that parses has exactly 32 characters besides its hyphens |
| `Uuids.UuidText` | app/services/event_service.py:77 | an id is written in its 36-character hyphenated form |
| `Uuids.UuidTextRoundTrip` | app/services/event_service.py:56-77 | parsing the text written for an id gives back the same id |
| `Integers.IntText` | app/services/event_service.py:77 | a capacity is written with a leading '-' exactly when it is negative |
| `Integers.ParseInt` | app/services/event_service.py:60 | only non-empty text parses as a capacity |
| `Integers.IntTextRoundTrip` | app/services/event_service.py:60-77 | parsing the text written for a capacity gives back the same integer |
| `MemoryStore.EventList.constructor` | app/api/endpoints/event_router.py:7 | the list starts empty |
| `MemoryStore.IndexOf` | app/api/endpoints/event_router.py:25-28 | the search finds the first event with the id, or reports that no event has it |
| `MemoryStore.IndexOfFirst` | app/api/endpoints/event_router.py:25-27 | any first match is the one the search returns |
| `MemoryStore.EventList.CreateEvent` | app/api/endpoints/event_router.py:12-15 | the new event gets id `len(events) + 1` and is appended; the earlier events are unchanged |
| `MemoryStore.CreateFreshWithoutDelete` | app/api/endpoints/event_router.py:13 | while only creates have run (ids 1..n), the next id is fresh |
| `MemoryStore.CreateReusesIdAfterDelete` | app/api/endpoints/events.py:12-40 | after deleting any event but the last from a list built by creates, the next create repeats an id still in the list |
| `MemoryStore.IdReuseScenario` | app/api/endpoints/events.py:11-42 | create, create, delete(1), create on a fresh list leaves exactly two events, both with id 2 |
| `MemoryStore.EventList.GetEvents` | app/api/endpoints/event_router.py:18-20 | the list is returned as it is |
| `MemoryStore.EventList.GetEvent` | app/api/endpoints/event_router.py:23-28 | the first event with the id is returned; 404 exactly when no event has it |
| `MemoryStore.EventList.UpdateEvent` | app/api/endpoints/event_router.py:31-38 | the first match is overwritten in place by the new event under the old id and every other position is unchanged; on a miss 404 is raised and the list is unchanged |
| `MemoryStore.UpdateReplacesOnlyFirst` | app/api/endpoints/event_router.py:33-37 | a later event with the same id is left as it was |
| `MemoryStore.EventList.DeleteEvent` | app/api/endpoints/event_router.py:41-47 | the first match is popped and the rest keep their order; on a miss 404 is raised and the list is unchanged |
| `MemoryStore.DeleteShape` | app/api/endpoints/event_router.py:43-46 | popping shortens the list by exactly one and shifts only the events after the match |
| `MemoryStore.DeleteRemovesOnlyFirst` | app/api/endpoints/event_router.py:43-46 | a second event with the same id survives the delete |

## Left out

- `get_csv_hash` and `compress_csv_file` (app/services/event_service.py:122-133), and `app/utils/file_utils.py`: SHA-256 and ZIP are calls into `hashlib` and `zipfile`.
- EventService.EventFile.UpdateEventRoute: the route's 404 carries the detail dictionary `{"status": "error", "message": "Event not found."}`; the model gives only its message text, as the response envelopes are not modelled.
- ReadEvents, CountEvents, WriteEvent, WriteThenRead: the csv module's limits are not modelled. Python's reader raises `_csv.Error` for a field longer than its default `field_size_limit` (131072 characters); `date` and `category` have no length bound, so `write_event` can store such a field. After that, `read_events` and `count_events` abort, and so do every later update and delete, because the row loop is outside the `try`. The model instead reads the row like any other. Likewise, an append in mode "a" to a file whose last line lacks a newline merges the new row into that line; the model assumes every existing row ends with a line break and appends a separate row.
- The other routes of `app/routes/event_router.py` (list, create, delete, hash, compress, count): response envelopes and FastAPI glue. The create route's `uuid4()` is randomness. Only the update route's id check is modelled.
- `app/utils/handler_events_csv.py` is a stub with no method bodies. `app/main.py` and `app/config.py` are startup and directory creation.
- Pydantic validation: the model keeps only the 100/150 length bounds of `EventCreateSchema`, as a predicate the row parser applies. The dated models of `app/models/event.py` are used nowhere.
- Byte-level CSV quoting, UTF-8 encoding and `os.path.exists`: the file is modelled at the level of rows and fields.
- `ensure_csv` reads and writes the same `r+` file handle, so in CPython the rows it copies back can come from a shifted position. The model gives the row-level result the code is written to produce.
- The log line printed for each skipped row.
- Concurrent writers: the source has no locking, and each model is sequential.
- Uuids.ParseUuid: accepts the hex digits with hyphens anywhere, in either case. CPython's `UUID()` also removes `urn:` and `uuid:` anywhere in the text and strips surrounding braces, and its `int(hex, 16)` step also takes surrounding whitespace, a leading '+', a "0x" prefix, digit underscores and non-ASCII Unicode decimal digits. None of these are modelled, so the model rejects a few ids Python accepts.
- Integers.ParseInt: accepts an optional sign and ASCII digits. The surrounding whitespace, digit underscores and non-ASCII digits that Python's `int()` also accepts are not modelled. Nor is CPython's limit on decimal conversion (3.11 and later, and the 3.7-3.10 security releases): `int()` raises `ValueError` for more than 4300 digits, so `read_events` skips such a row and every later rewrite drops it, while the model reads it. This also holds for `CountExceedsReadOnBadRow` and `RewriteDropsSkippedRows`, which do not count such a row as failing.
- Integers.IntText: `str()` refuses an integer of more than 4300 decimal digits under the same limit, so `write_event` raises for such a capacity. The model writes it, and `IntTextRoundTrip` and `RowRoundTrip` hold for every integer.
- In the in-memory store, `date` is an opaque string rather than a `datetime`. The request body's optional id is not modelled, because every handler overwrites it before storing the event.
- Python object aliasing in the in-memory store: the handlers mutate the request object and store that same object, and `get_events` returns the list object itself. The model works on values. The stored and returned contents are the same.
