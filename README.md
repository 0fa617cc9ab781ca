# Graffiti tracker: data-access layer

This project models the data-access layer of a small web application that catalogues graffiti
artwork. Contributors submit a title, an optional description, coordinates, an image reference and
their name. The layer stores these as rows of one table, `graffiti_entries`, and offers six
operations: add, list all, get by id, update, delete, and search by title. Every operation answers
with a success payload or a failure message and never raises. A mutation that faults is rolled back,
so the table is left as it was.

Modules:

- `Results` (`results.dfy`): `Option` (Python's `None`) and `Result<T> = Ok(value) | Fail(message)`,
  the uniform response shape.
- `Models` (`models.dfy`): the row type `Entry` with its eight columns, the `PendingEntry` a caller
  builds before the insert (any column may still be `None`), the NOT NULL check that decides whether
  the store accepts an insert, and the primary-key invariant `KeyedById`.
- `TextMatch` (`text_match.dfy`): the `ILIKE '%keyword%'` test, as ASCII lower-casing of both sides
  followed by a substring search, proved equal to "the keyword occurs somewhere in the title, letter
  case ignored".
- `DatabaseService` (`database_service.dfy`): the table as a class `GraffitiTable`. It holds a map
  from primary key to row, the order in which the store returns rows (insertion order), and the
  next key to hand out. `Add`, `Update` and `Delete` are methods that change the table. `GetAll`,
  `GetById` and `Search` are functions that read it. `Updated` specifies what an update does to one
  row, and `Filter`, `ListEntries` and `FilterByTitle` are the list comprehensions of the queries.
- `ServiceProperties` (`service_properties.dfy`): lemmas that relate operations to each other. They
  cover the listing after an insert and after a delete, the update no-ops, idempotence and
  single-column update, the empty-keyword search and case-insensitivity, and the "graf" search
  example. `MuralScenario` is a client that runs add, list, delete, list and checks each answer
  against the contracts alone.

Store faults (a lost connection, a failed commit) are not decided by anything in this code. Each
operation therefore takes them as a parameter `storeError: Option<string>`. With `Some(m)` the answer
is `Fail(m)` and the table is unchanged. A fault during the lookup of update or delete has the same
outcome as a fault during their commit, so one parameter covers both. The creation time is also a
parameter, `now`, because `datetime.now` is a clock read.

## Model

| member | source | states |
|---|---|---|
| `Models.MissingColumn` | db/models.py:11-17 | The store refuses an insert exactly when one of title, latitude, longitude, image_url, created_by is NULL, and the column it reports is one that is NULL. |
| `Models.Materialize` | db/models.py:10-17 | The stored row carries the supplied columns unchanged (its supplied part equals the pending entry), the key the store assigned, and `created_at` set from the column default. |
| `Models.IdsAreUnique` | db/models.py:10 | In a table keyed by primary key, two different rows never share an id. |
| `Models.DescriptionIsOptional` | db/models.py:12 | Whether `description` is NULL never decides whether an insert is accepted. |
| `TextMatch.Lower` | services/database_service.py:136 | Lower-casing keeps the length and maps every character through ASCII lower-casing. |
| `TextMatch.Contains` | services/database_service.py:136 | The substring search is true exactly when the needle occurs at some position of the text. |
| `TextMatch.ContainsIgnoringCase` | services/database_service.py:136 | The `ILIKE '%keyword%'` test is true exactly when the keyword occurs at some position of the title with every character equal up to ASCII letter case. |
| `DatabaseService.FilterByTitle` | services/database_service.py:136-149 | The search result holds exactly the given records whose title matches the keyword, as a subsequence of the input order, with no record twice when the input has none twice. |
| `DatabaseService.Updated` | services/database_service.py:97-101 | Each of title, description, latitude, longitude and image_url takes its argument when the argument is truthy and keeps its old value otherwise; id, created_at and created_by never change. |
| `DatabaseService.OtherIds` | services/database_service.py:121 | After a delete, the store lists exactly the other ids, as a subsequence of the old order (so in their old order), and still distinct. |
| `DatabaseService.GraffitiTable.GetAll` | services/database_service.py:37-53 | Without a store fault the answer is a list with exactly one record per stored row: its length is the number of rows, every element is a stored row, every stored row appears, and no two elements share an id. The list is the table's listing in the store's order (`ListEntries` over that order), the same listing `Search`, `ListingAfterInsert` and `ListingAfterDelete` speak of. A store fault gives `Fail` with the fault's message. |
| `DatabaseService.GraffitiTable.GetById` | services/database_service.py:62-77 | Without a store fault the answer is `Ok` exactly when the id is stored, and then it is that row. An absent id gives exactly `Fail("Entry not found.")`. A store fault gives `Fail` with its message. |
| `DatabaseService.GraffitiTable.Search` | services/database_service.py:135-151 | Without a store fault the answer holds exactly the stored rows whose title contains the keyword ignoring case, in the order the table lists them. A store fault gives `Fail`. |
| `DatabaseService.GraffitiTable.Add` | services/database_service.py:15-29 | The add succeeds exactly when there is no store fault and every NOT NULL column is supplied. It then returns the success message and a key not already in the table, stores the row built from the inputs with `created_at = now` under that key, appends it to the listing order, and a get on that key returns the row. Otherwise the answer is `Fail` with the fault or NOT NULL message, and the table is unchanged. |
| `DatabaseService.GraffitiTable.Update` | services/database_service.py:91-107 | An absent id gives `Fail("Entry not found.")` with the table unchanged, and so does a store fault (with its message). Otherwise the answer is `Ok("Entry updated successfully!")`, the row becomes `Updated(old row, arguments)`, and a get on any other id answers as before. id, created_at and created_by of every row are kept. |
| `DatabaseService.GraffitiTable.Delete` | services/database_service.py:116-126 | An absent id gives `Fail("Entry not found.")` with the table unchanged, and so does a store fault. Otherwise the answer is `Ok("Entry deleted successfully!")`, that row is removed, a later get on the id gives not-found, and every other id answers as before. |
| `ServiceProperties.ListingAfterInsert` | services/database_service.py:24-26 | After an insert under a new key, the full listing is the old listing with the new record appended. |
| `ServiceProperties.ListingAfterDelete` | services/database_service.py:121-123 | After a delete, the full listing is the old listing without the deleted record, the others in their old order. |
| `ServiceProperties.UpdateWithoutArgumentsIsNoOp` | services/database_service.py:80 | An update with every optional argument left at `None` leaves the row exactly as it was. |
| `ServiceProperties.UpdateWithFalsyArgumentsIsNoOp` | services/database_service.py:97-101 | Falsy arguments (`""`, `0`) are ignored, so an update can never clear a column to empty or zero. |
| `ServiceProperties.UpdateTitleOnly` | services/database_service.py:97 | An update with only a non-empty title changes the title and nothing else. |
| `ServiceProperties.UpdateIsIdempotent` | services/database_service.py:97-101 | Applying the same update twice gives the same row as applying it once. |
| `ServiceProperties.SearchWithEmptyKeywordReturnsAll` | services/database_service.py:136 | The empty keyword (pattern `%%`) matches every title, so search returns every record in order. |
| `ServiceProperties.KeywordCaseIsIgnored` | services/database_service.py:136 | Lower-casing the keyword beforehand does not change which titles match. |
| `ServiceProperties.SearchExample` | services/database_service.py:136-149 | Searching "graf" over the titles "Graffiti Wall", "Street Art" and "GRAFitti2" returns the first and the third. |

## Left out

- `app.py` (two page routes that only render templates), `static/js/map.js` (browser map and form
  handling) and `config.py` (environment lookup) are not part of this model.
- Store faults other than a NULL in a NOT NULL column come in through the `storeError` parameter.
  Nothing decides when they happen.
- Exception texts: a refused insert answers `"NOT NULL constraint failed: graffiti_entries.<column>"`
  without the driver's wrapper text. Other faults carry whatever text `storeError` holds.
- The race between the lookup and the mutation in update and delete is not modelled. Each operation
  is one atomic step on the table.
- Coordinates are `real`s with "truthy means non-zero". Floating-point rounding and NaN are not
  modelled. NaN is truthy in Python and cannot be written as a `real`.
- Python's dynamic typing is not modelled. The column arguments of add and update have their
  column's type or are `None`, so a text latitude or a numeric title cannot be expressed.
- The id of get, update and delete is an `int` and the search keyword a `string`; neither can be
  `None`. In the source, a lookup of `None` answers not-found and a `None` keyword searches for the
  text "None"; these two cases are not modelled.
- Declared string lengths (`String(100)`, `String(255)`, `String(50)`) are not enforced. SQLite does
  not enforce them either.
- `TextMatch.ContainsIgnoringCase`: `%` and `_` inside the keyword are matched literally, whereas
  the store's `ILIKE` treats them as wildcards. Case folding is ASCII only, as SQLite's `lower()` is by
  default.
- `DatabaseService.GraffitiTable.Add`: promises only that the new key is not already in the table.
  The model hands out keys from a counter that never reuses a key. SQLite may reuse the highest key
  after that row is deleted.
- `DatabaseService.GraffitiTable.GetAll`: the order of an unordered query is the store's choice. The
  model fixes it as insertion order, which matches SQLite's key order as long as keys only grow.
- `GraffitiEntry.__repr__` is a debugging string and is not modelled.
