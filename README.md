# Gas-station store: a Dafny model

The service keeps an in-memory SQLite table `gas_stations` (`id`, `address`,
`latitude`, `longitude`, `source`) behind a small REST API. One route pulls
features from an ArcGIS feature service, maps each to a row tagged `'api'`
and inserts it only when no row already has its address. The other routes
list rows, create a row tagged `'user'` with id `MAX(id) + 1`, update the
address and coordinates of a row, delete one row by id, or delete all rows.

The model has four modules:

- `StationModel` (`model.dfy`): the row, candidate and failure types. Coordinates are an opaque type `Coord`, because the service only copies them.
- `FeatureMapping` (`features.dfy`): the pure mapping from upstream features to candidate rows.
- `TableSpec` (`table.dfy`): the table as a value (`Table`: rows plus the AUTOINCREMENT counter). It gives the meaning of each SQL statement as a function and holds the lemmas: the import only appends, adds exactly the first candidate for each new address in candidate order, never duplicates an address, is idempotent, and its count equals the growth; update and delete touch only the matching row; ids stay unique.
- `StationStore` (`store.dfy`): class `StationTable` with the mutable `rows` and `lastId` fields and one method per route handler. Each method is proved against the `TableSpec` function of its statement. The import is a `while` loop that performs the check-then-insert per candidate and keeps a running `count`.

Table invariant (`TableSpec.WellFormed`): every id lies in `1 .. lastId`,
`lastId` is at most 2^63 - 1, and ids strictly ascend along the rows.
Every insert receives an id above all current ids. A manual insert takes the
current maximum plus one, and an AUTOINCREMENT insert takes the counter plus
one. So rows stay in id order, the order SQLite's rowid scan returns for
`SELECT *`, and no two rows share an id.

Where descriptions of this service disagree with `server.js`, the model
follows the code. Listing rows never triggers an import, and there is no
"already fetched" flag. The import route always reports the number of rows
it added.

## Model

| member | source | states |
|---|---|---|
| `FeatureMapping.AddressOf` | server.js:41 | the stored address is `adresse` when that is a non-empty string and `"N/A"` otherwise; it is never empty |
| `FeatureMapping.MapFeature` | server.js:40-45 | a feature maps to a candidate exactly when it has both `attributes` and `geometry`, otherwise a TypeError; latitude is `geometry.y`, longitude `geometry.x`, source `'api'` |
| `FeatureMapping.MapFeatures` | server.js:40-45 | the features map in order, index by index, to their candidates; the result is a TypeError exactly when some feature is malformed |
| `FeatureMapping.MappedCandidatesAreTaggedAndAddressed` | server.js:40-45 | every mapped candidate is tagged `'api'` and has a non-empty address; every feature without a usable address gets `"N/A"` |
| `TableSpec.CountAddress` | server.js:52 | the count of rows with an address is 0 exactly when no row has that address (a NULL address matches nothing) |
| `TableSpec.MaxId` | server.js:95 | `MAX(id)` is NULL exactly on an empty table, otherwise an id of some row that no row exceeds |
| `TableSpec.NextManualIdFresh` | server.js:95-100 | on a well-formed table the manual id is 1 when the table is empty and otherwise the newest row's id plus 1; it exceeds every id in use |
| `TableSpec.InsertManual` | server.js:100-106 | a manual insert appends a `'user'` row with that id and keeps the table well formed; it fails only when the largest id is already the largest rowid |
| `TableSpec.DeletedIdReusableOnlyByManualInsert` | server.js:95-102 | after the newest row is deleted, the next manual id is exactly 1 on a now-empty table, or the new newest id plus 1; it equals the deleted id whenever that id was 1 on a one-row table or followed its predecessor consecutively. The next AUTOINCREMENT id is always larger than the deleted id |
| `TableSpec.InsertAutoFresh` | server.js:57-64 | an AUTOINCREMENT insert appends a row with id counter + 1 and keeps the table well formed; it fails exactly when the counter is at the largest rowid |
| `TableSpec.ImportAppends` | server.js:47-75 | the import keeps every existing row in place, also after a failed insert; the table grows by exactly `count` rows; each new row carries a candidate's address, coordinates and source, with an id above the old counter; the only failure is SQLITE_FULL |
| `TableSpec.ImportAddsNoDuplicate` | server.js:50-71 | no row added by the import shares its address with any earlier row, whether that row existed before the run or was added earlier in it |
| `TableSpec.ImportInsertsFirstOccurrences` | server.js:50-71 | the rows an import adds are exactly the first candidate for each address not yet present, in candidate order, numbered consecutively after the counter; an insert failure cuts that list short, and a run without failure adds all of it |
| `TableSpec.ImportCoversCandidates` | server.js:52-67 | after an import without error, every candidate's address is present in the table |
| `TableSpec.ImportOfPresentIsNoop` | server.js:52-67 | when every candidate's address is already present, the import changes nothing and reports 0 |
| `TableSpec.ImportIdempotent` | server.js:50-71 | a second import of the same candidates right after a successful one adds nothing and reports 0 |
| `TableSpec.UpdateRows` | server.js:116 | an update keeps the number of rows and every id and source; rows whose id matches get the new address and coordinates, and all other rows are unchanged |
| `TableSpec.UpdateMissingIsNoop` | server.js:116-120 | updating an id that no row has leaves the rows unchanged |
| `TableSpec.UpdateKeepsWellFormed` | server.js:116 | an update keeps the table invariant |
| `TableSpec.RemoveId` | server.js:128 | after a delete by id, the remaining rows are exactly the old rows with a different id |
| `TableSpec.RemoveIdKeepsOrder` | server.js:128 | a delete by id keeps the rows in id order |
| `TableSpec.RemoveIdCount` | server.js:128 | with unique ids, a delete removes exactly one row when the id is present and none otherwise |
| `TableSpec.RemoveMissingIsNoop` | server.js:128-133 | deleting an id that no row has leaves the rows unchanged |
| `TableSpec.RemoveKeepsWellFormed` | server.js:128 | a delete by id keeps the table invariant and the counter |
| `StationStore.StationTable.constructor` | server.js:16-29 | the fresh table is empty, its counter is 0, and it satisfies the invariant |
| `StationStore.StationTable.List` | server.js:82-90 | the list is the table's rows, in strictly ascending id order |
| `StationStore.StationTable.ImportCandidates` | server.js:47-75 | the loop leaves the table as `ImportRun` describes; it returns the count of inserted rows, or the first insert error, with earlier inserts kept |
| `StationStore.StationTable.ImportExternal` | server.js:32-78 | a malformed feature fails with a TypeError and leaves the table unchanged; otherwise the mapped candidates are imported as `ImportCandidates` describes |
| `StationStore.StationTable.Create` | server.js:93-110 | the POST handler does what `InsertManual` describes: it returns the new id, or fails with the table unchanged |
| `StationStore.StationTable.Update` | server.js:113-123 | the PUT handler sets the rows to `UpdateRows` of the old rows, keeps the counter and the invariant, and has no not-found case |
| `StationStore.StationTable.Delete` | server.js:126-135 | the DELETE-by-id handler sets the rows to `RemoveId` of the old rows, keeps the counter and the invariant, and has no not-found case |
| `StationStore.StationTable.DeleteAll` | server.js:138-146 | the delete-all handler empties the table and keeps the AUTOINCREMENT counter |

## Left out

- The HTTP layer: Express routing, body parsing, CORS, status codes, and the `res.json`/`send` bodies (server.js:1-13, 148-150). Only the import and POST handlers return a `Result`. Update, delete, delete-all and list have no failure path in the model. The import's message text is reduced to its count.
- The upstream request (server.js:34-38): the axios GET, the fixed ArcGIS URL and the disabled TLS verification. The parsed feature list is a parameter of `ImportExternal`. Network, HTTP status and JSON failures are not modelled, and neither is a response without `data.features`.
- `adresse` values that are not strings (numbers, booleans). The model admits a string, `undefined` or `null`.
- Coordinates: an opaque type, because they are only copied. Floating point and SQLite REAL affinity are not modelled.
- SQLite internals: SQL parsing, `insert.finalize()` (server.js:73) and the `sqlite_sequence` table itself, which is reduced to the `lastId` counter. Also left out is the type affinity that compares the string `:id` route parameter with the INTEGER column. The model takes the id as an integer; a non-numeric id matches no row, which the model already covers as an absent id.
- Store errors other than the two that follow from the data: SQLITE_FULL when AUTOINCREMENT passes the largest rowid, and a manual id past that rowid. Out-of-memory and I/O errors are not modelled. The `SELECT` statements never fail in the model.
- `Create`: does not model JavaScript's loss of precision for ids above 2^53. The id is an exact integer, and the model rejects a manual id above 2^63 - 1.
- Concurrency: interleaving of requests between awaits (a read-max-then-insert or check-then-insert race). Each handler runs to completion on its own.
- Logging (server.js:74) and server startup (server.js:148-150).
