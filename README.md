# Store-location spreadsheet import/export, modelled in Dafny

The modelled service has two HTTP handlers over one MySQL table, `store_locations`.

- **Import** (`POST /api/import`) reads "Sheet1" of an uploaded spreadsheet in one database transaction:
  - Row 0 is a header and is skipped.
  - Every other row must have no empty cell. Its columns 0..6 are read as `code, name, latitude, longitude, address, city, operation_hour`.
  - The code is looked up in the transaction's view of the table. A hit is a conflict; otherwise the row is inserted.
  - The first failing row ends the import without committing: every rejection of a row rolls the transaction back explicitly, except a short row, whose index panic skips the rollback. Reaching the end commits.
- **Export** (`GET /api/export`) writes a fixed header row and then one row per stored record, columns A..G, without the id.

The Dafny project models the handlers' row processing. The spreadsheet library and the SQL driver are not modelled: the worksheet is a `seq<seq<string>>`, the table is a `seq<Record>` and database failures are explicit fault parameters.

- `StoreLocations` (`store_locations.dfy`) holds the data model: `Location` (seven text fields; latitude and longitude stay text) and `Record` (id plus location).
  - `Cells` and `ToLocation` are the positional mapping between a location and a worksheet row.
  - `ExistingId` is the duplicate lookup as the source performs it. It returns the id of the first record with the code, or Go's zero value 0 when there is none.
- `ExcelImport` (`excel_import.dfy`) is the import as a pure specification.
  - `Run` processes grid rows from index `i` against the transaction's view, with the checks in the source's order: empty cell, short row, lookup failure, duplicate, insert failure.
  - `ImportOutcome` adds the upload, the transaction begin and the commit.
  - The lemmas state the properties of the import: the header is ignored, first failure wins, each rejection and the row it names, an exact characterisation of a committed import and what it appends, uniqueness of `code`, repeated codes within one file, and two imports in a row.
- `ExcelExport` (`excel_export.dfy`) holds the exported sheet (`ExportSheet`) and the export's fault model.
- `Handlers` (`handlers.dfy`) holds the class `Database` with the table and the auto-increment counter.
  - `Import` mirrors the handler's `for i, row := range rows` loop with its inner cell loop. It works on a copy of the table held by the transaction. Returning early discards the copy; assigning the copy back is the commit.
  - `Export` mirrors the `rows.Next()` loop with its `rowIndex` counter.
  - Both methods are proved against the functions above.
- `RoundTrip` (`round_trip.dfy`) holds export followed by import.

Design decisions, stated where the code and its description differ or leave a choice:

- **Existence test.** The duplicate test is the source's sentinel `existingID != 0`, kept as written. A stored record whose id is 0 is invisible to it. `ZeroIdMasksDuplicate` shows an import that then stores a code twice. So the uniqueness lemmas assume no stored id is 0 and a positive auto-increment counter, which is what MySQL's auto-increment provides.
- **Several matching rows.** When several rows match, the query has no `ORDER BY`. The model takes the first matching record in table order.
- **Short rows.** A data row with no empty cell but fewer than seven cells makes the source index past the row and panic. `gin.Default()`'s recovery middleware answers that with 500. The model makes it a distinct error, `ShortRow(i+1)`. The empty-cell check runs first, so a short row with an empty cell still reports `EmptyField`. The panic happens before any `tx.Rollback()`, so that transaction is neither committed nor rolled back by the handler; the model treats it like the other failures (see "## Left out").
- **Unreadable upload.** A file that cannot be opened or parsed is answered with 500 by the code (`UnreadableFile`), not with 400. The model follows the code.
- **Export cursor stopping early.** The export never checks `rows.Err()`. A cursor that stops early therefore yields a shorter sheet and a success response. `ExportFaults.cursorBreaks`/`breakAt` model that. A scan error yields no file.

## Model

| member | source | states |
|---|---|---|
| StoreLocations.ToLocation | utils/import_export_excel.go:59-65 | fields are read positionally from columns 0..6: writing the location back as cells gives exactly the first seven cells of the row; later columns are dropped |
| StoreLocations.FilledIffNoEmptyCell | utils/import_export_excel.go:50-57 | a location has every field non-empty exactly when its worksheet row passes the empty-cell check |
| StoreLocations.ExistingId | utils/import_export_excel.go:67-76 | the id scanned by the code lookup is non-zero only if the code is in the transaction's view |
| StoreLocations.LookupFindsStoredCode | utils/import_export_excel.go:67-81 | with no zero ids stored, the sentinel test `existingID != 0` holds exactly when the code is already in the view |
| ExcelImport.Run | utils/import_export_excel.go:44-90 | the row loop only appends to the transaction's view, one record and one id per processed row |
| ExcelImport.Status | utils/import_export_excel.go:15-95 | a missing file and an empty cell are answered 400, a duplicate code 409, and an unreadable file, a short row and every storage failure 500 |
| ExcelImport.ImportOutcome | utils/import_export_excel.go:15-98 | a committed import needed a parsed upload, keeps the old table as a prefix and adds exactly one record per data row |
| ExcelImport.Inserted | utils/import_export_excel.go:59-65 | the records a clean run inserts: data row i+k becomes record k with consecutive ids and the fields of columns 0..6 |
| ExcelImport.RunReadsFrom | utils/import_export_excel.go:44-48 | the loop from row i never reads rows before i |
| ExcelImport.HeaderIgnored | utils/import_export_excel.go:44-48 | row 0 is never validated or inserted: any header row gives the same outcome |
| ExcelImport.RunSplit | utils/import_export_excel.go:44-90 | rows are processed strictly in order: running the grid is running its first k rows and then continuing from the view they left |
| ExcelImport.FirstFailureWins | utils/import_export_excel.go:44-90 | once a row before k fails, the import fails with that error and no later row is examined |
| ExcelImport.EmptyCellRejected | utils/import_export_excel.go:50-56 | an empty cell in data row k (earlier rows passed) fails the import with a bad-request error naming row k+1, before any duplicate or storage check |
| ExcelImport.ShortRowRejected | utils/import_export_excel.go:59-65 | a row with no empty cell but fewer than seven cells fails the import before its code is looked up |
| ExcelImport.DuplicateRejected | utils/import_export_excel.go:67-81 | a well-formed row whose code the transaction's view holds under a non-zero id fails the import with a conflict naming that code |
| ExcelImport.RunKeepsIdsNonZero | utils/import_export_excel.go:84 | rows inserted with ids from a positive counter keep every id in the view non-zero |
| ExcelImport.RunAccepts | utils/import_export_excel.go:44-90 | the loop reaches the end exactly when every remaining row is well-formed, fault-free, new to the view and not repeated; the view is then the old one followed by those rows in order |
| ExcelImport.ImportCommitsIff | utils/import_export_excel.go:43-98 | an import commits exactly when begin and commit succeed and the data rows are clean; the table then equals the old table followed by one record per data row in file order |
| ExcelImport.RunKeepsCodesDistinct | utils/import_export_excel.go:67-84 | the row loop never adds a code already in the view, so distinct codes stay distinct |
| ExcelImport.ImportKeepsCodesUnique | utils/import_export_excel.go:67-98 | a committed import keeps `code` unique in the table when no stored id is 0 |
| ExcelImport.RepeatedCodeRejected | utils/import_export_excel.go:67-84 | a code repeated within one file conflicts on its second occurrence, because the earlier insert is visible to the later lookup |
| ExcelImport.SecondImportConflicts | utils/import_export_excel.go:67-81 | after one import commits a code, a second import whose first data row carries that code fails with a conflict naming it |
| ExcelImport.SecondImportNeverCommits | utils/import_export_excel.go:67-98 | after one import commits a code, a second import carrying that code on any data row never commits, whatever its other rows and storage failures |
| ExcelImport.ZeroIdMasksDuplicate | utils/import_export_excel.go:68-76 | a stored record with id 0 is treated as absent: re-importing its code commits and leaves the code twice in the table |
| ExcelExport.ExportSheet | utils/import_export_excel.go:117-147 | the sheet has 1 + n rows: the fixed seven-name header, then record k's code..operation hour in row k+2, without the id |
| ExcelExport.Delivered | utils/import_export_excel.go:128 | the cursor yields a prefix of the table, shorter exactly when it stops before the end |
| Handlers.Database.Import | utils/import_export_excel.go:35-98 | the reply and the new table are those of `ImportOutcome`; every failure leaves table and counter unchanged (rollback, or the short-row panic that skips it), success publishes the transaction's view (commit) |
| Handlers.Database.Export | utils/import_export_excel.go:104-158 | a file is produced exactly when neither the query, a scan of a delivered record nor the write fails, and it is `ExportSheet` of the delivered records |
| RoundTrip.ExportThenImport | utils/import_export_excel.go:43-147 | re-importing an export commits exactly when all exported fields are filled, the codes are distinct and none is stored already; the table then gains the exported locations in order with fresh ids |
| RoundTrip.ImportLaidOut | utils/import_export_excel.go:43-98 | importing any sheet laid out as the export lays it out commits exactly when the records are filled, distinct in code and new to the table, and appends their locations in row order |
| RoundTrip.EmptyExportImportsNothing | utils/import_export_excel.go:117-124 | exporting an empty table gives the header row only, and importing it commits an unchanged table |

## Left out

- HTTP plumbing is left out: gin's `FormFile`, `file.Open`, JSON bodies and download headers. The upload is reduced to `NoFile`, `Unreadable` or the parsed rows. `ExcelImport.Status` gives the HTTP status of each import error.
- Spreadsheet parsing and serialisation by excelize (`OpenReader`, `GetRows`, `NewFile`, `SetCellValue`, `Write`) are a foreign library. A worksheet is `seq<seq<string>>`, and a missing "Sheet1" is an empty grid.
- The SQL driver is left out. Whether `db.Begin`, a lookup, an insert, the export query, a scan or the write fails is given by the `Faults`/`ExportFaults` parameters, not decided by the model.
- Handlers.Database.Import: a failed commit is modelled as leaving the table unchanged. The source does not roll back after it, and the real state then depends on the database.
- Handlers.Database.Import: auto-increment values consumed by a rolled-back transaction are given back. MySQL does not reuse them, so ids after a failed import may differ from the model's.
- Handlers.Database.Export: a write error after part of the file reached the client is modelled as no file.
- Handlers.Database.Import: the short-row panic is modelled as a rollback (table unchanged). In the source the panic skips `tx.Rollback()`: nothing is committed, but neither `database/sql` nor the driver ever ends a transaction begun with a background context, so the transaction keeps its connection for the rest of the process's life, or until the MySQL server drops the idle connection; its uncommitted rows and their locks are held until then. The model does not capture that.
- StoreLocations.ExistingId: codes are compared by exact string equality. MySQL compares them with the column's collation, and the default collations ignore case and trailing spaces, so "S1" and "s1" would conflict there. `LookupFindsStoredCode`, `RunAccepts`, `ImportCommitsIff`, `ExportThenImport` and the other "exactly when" lemmas therefore hold for a binary collation only.
- ExcelExport.ExportSheet: the export query has no `ORDER BY`; the model takes query order to be table order (the order of `records`). The database may return the rows in any order.
- RoundTrip.ExportThenImport: the round-trip lemmas (`ExportThenImport`, `ImportLaidOut`, `EmptyExportImportsNothing`) take the sheet the spreadsheet library reads back (`OpenReader`, `GetRows`) to be exactly the sheet the export wrote (`SetCellValue`, `Write`). Library effects such as dropping trailing blank rows or cells, or limits on cell length, are not modelled. In particular, "commits exactly when" relies on a record with empty fields being read back as a row with empty cells.
- Concurrent imports and isolation levels are delegated to the database and are not modelled.
- `main.go` is process wiring (global handle, routes, server start) and is not part of this model.
