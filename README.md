# Ingestion, quality rules and backups of the hiring-data service, in Dafny

This project models the core of a small service that loads three related tables into
PostgreSQL: `departamentos`, `trabajos` and `empleados_contratados`. Employees reference a
department and a job. The service also writes and reads back backups of those tables. These
parts are modelled:

- **Record models** (`Records`). They are the pydantic models behind `TABLAS_VALIDAS`:
  positive ids, bounded names, and optional positive foreign keys and timestamps.
  Validation returns either a typed row or every field error.
- **Parsing a group** (`Parsing`). This is `_parsear_registros_para_tabla`: valid rows keep
  their order, and each invalid item yields one `{indice, tabla, detalle}` error.
- **Quality rules** (`Quality`). This is `validar_reglas_calidad`: an employee is kept only
  when each of its non-null foreign keys exists, with one error per missing key.
- **Upserts** (`Store`). These are the three `upsert_*` functions over a `Database` class
  whose committed tables are maps. A statement fails, and is rolled back, in these cases:
  - a value does not fit its column (INTEGER range, VARCHAR length, NUL character);
  - a reference is missing;
  - a key repeats within one `execute_values` page of 1090 rows.

  `DELETE` follows the REFERENCES constraint.
- **Ingestion** (`Ingest`). This is `recibir_transacciones`. It normalises the payload into
  groups and rejects the request unless every group has 1 to 1000 records. It then runs the
  groups in order. Earlier groups stay committed when a later one fails.
- **Codecs** (`Codec`). These are the Avro and Parquet exporters and readers, as values:
  - an export returns the file it leaves and a count, or an error;
  - a failed Avro export leaves a readable file holding the blocks completed before the
    failing record; a failed Parquet export leaves none;
  - a missing library is an error of its own.
- **Backups** (`Backups`). This is `generar_respaldos`, together with `obtener_datos_tabla`,
  over a `Disk` class holding the files. Every file of one call shares one timestamp, and
  the call stops at the first item that fails.
- **Backup locator** (`Locator`). This is `_listar_respaldos_por_tabla`, including the
  quirk that the pattern's `$` also matches before a final newline.
- **Clear** (`Clear`). This is `limpiar_tabla`: a fail-closed `DELETE` that runs only when
  the locator reports backups.
- **Restore** (`Restore`). This is `restaurar`: read a file, then parse, apply the quality
  rules and upsert its records as one group.
- **CSV loader** (`CsvBatches`, `CopyLines`). This is `modelos.py`'s
  `procesar_csv_por_lotes`, which filters CSV rows and yields them in batches. It also
  covers the COPY-line formatting of the three `insertar_lote_*` functions.

Some things the service depends on become parameters:
- the clock (`ts`, `hoy`);
- the order `SELECT *` returns rows in (`scans`);
- what a directory lists (`Listing`, `names`);
- whether the codec libraries load (`Codecs`);
- pydantic's and `strptime`'s date parsing (`DateCodec`, `strptime`).

Some behaviours are fixed by the code rather than by the service's description, and
the model follows the code:

- **Restore has no batch bound.** The 1 to 1000 bound is checked only by
  `recibir_transacciones`. A restore passes a file of any size through the pipeline
  (`RestoreSnapshot`).
- **Null foreign keys in Avro.** The Avro schema declares the employee foreign keys as
  non-null `int`. A backup in Avro therefore fails when a stored employee has a null
  foreign key. Parquet columns are nullable, so a Parquet backup succeeds
  (`StoredTableExport`, `ExportedRowFits`).
- **Blank CSV lines in catalog files.** Outside hired_employees.csv, the filter keeps a
  line with no fields at all, because `all()` of nothing is true. That row then makes the
  batch's COPY fail with IndexError (`BlankLineFailsCatalog`).
- **Ids loaded from CSV.** The tables carry no CHECK constraint, and the CSV loader does not
  check signs: a departments.csv line `0,Ventas` or an employee id `-3` is stored. The
  store invariant `Store.Valid` (positive ids, as the service's own writes keep) excludes
  such a store, so the backup-and-restore identities below are stated for a store kept
  valid by the service's own writes. A backup of a CSV-loaded table with a non-positive id
  succeeds, and its restore rejects that row.

## Model

| member | source | states |
|---|---|---|
| Domain.TableNamed | fast_api_con_rest.py:113-117 | a name is in the registry exactly when it is the name of one of the three tables |
| Domain.TableOf | fast_api_con_rest.py:564-565 | a raw `tabla` value is accepted exactly when it is a table's name as a string, and then denotes that table |
| Domain.FormatOf | fast_api_con_rest.py:605-606 | `formato` is accepted exactly when it is "avro" or "parquet" |
| Records.CoerceInt | fast_api_con_rest.py:94 | an integer field takes an int as it is, refuses null, lists and objects, and reads a string only from one of its digits |
| Records.CoerceIntOfNumbers | fast_api_con_rest.py:94 | booleans read as 1 and 0, and a float is accepted exactly when integral, as that integer |
| Records.CoerceIntPadded | fast_api_con_rest.py:94 | the decimal text of an integer, with whitespace around it, reads as that integer |
| Records.CoerceIntZeroFraction | fast_api_con_rest.py:94 | the decimal text of an integer followed by `.0` reads as that integer |
| Text.LaxIntGrouped | fast_api_con_rest.py:94 | two digit groups joined by an underscore read as the number their digits spell |
| Records.PositiveInt | fast_api_con_rest.py:94 | a required `gt=0` id is accepted exactly when present and coercible to a positive integer, and is then that integer; a missing id is reported as missing, a bad one with the coercion's error, under its field name |
| Records.OptionalPositiveInt | fast_api_con_rest.py:109-110 | an optional foreign key is None exactly when absent or null, and otherwise accepted exactly when it coerces to a positive integer, which it then is |
| Records.BoundedString | fast_api_con_rest.py:95 | a required name is accepted exactly when it is a string with a length in bounds, and is kept as given |
| Records.OptionalString | fast_api_con_rest.py:105 | an optional name is None exactly when absent or null, and otherwise accepted exactly when it is a string of at most 100 characters, which it then is |
| Records.OptionalDateTime | fast_api_con_rest.py:107 | an optional timestamp is None exactly when absent or null, fails exactly when the date parser refuses the value, and is otherwise what the parser made of it |
| Records.Validate | fast_api_con_rest.py:93-110 | a validated row has its table's shape and meets every declared constraint; a failure reports at least one issue; a record without `id` always fails on `id` |
| Records.ValidateDepartment | fast_api_con_rest.py:93-96 | a department record is accepted exactly when `id` (a positive int) and `departamento` (1 to 50 characters) both pass; the row holds the coerced id and the name; otherwise the errors are exactly the failing fields' issues, `id` first |
| Records.ValidateJob | fast_api_con_rest.py:98-101 | a job record is accepted exactly when `id` and `trabajo` (1 to 200 characters) both pass; the row holds the coerced id and the title; otherwise the errors are exactly the failing fields' issues, `id` first |
| Records.ValidateEmployee | fast_api_con_rest.py:103-110 | an employee record is accepted exactly when all five fields pass; the row holds their values; otherwise the errors are exactly the failing fields' issues in declaration order |
| Records.ValidateExport | fast_api_con_rest.py:758-776 | a stored row that meets the constraints, exported as `obtener_datos_tabla` does, validates back to the same row |
| Records.ValidateExportEmployee | fast_api_con_rest.py:758-776 | an employee row that meets the constraints, exported, validates back to the same row |
| Records.AvroSchemaFor | fast_api_con_rest.py:779-811 | a schema exists exactly for the three tables, is named after the table and starts with a non-null int `id`; any other name is refused |
| Records.ExportFitsAvro | fast_api_con_rest.py:799-810 | an exported row has exactly the schema's fields and fits it, unless it is an employee with a null foreign key |
| Records.AvroEmployeeFits | fast_api_con_rest.py:799-810 | an exported employee fits its Avro schema exactly when both foreign keys are present |
| Parsing.FirstNonMapping | fast_api_con_rest.py:658-660 | finds the first item that is not a mapping, where `modelo(**item)` raises, and none exactly when all are mappings |
| Parsing.ParseRecords | fast_api_con_rest.py:651-667 | an unknown table is refused; otherwise the loop yields the valid rows and the per-item errors, stopping at a non-mapping item |
| Parsing.ParseCounts | fast_api_con_rest.py:658-666 | every item yields either a valid row or an error: the two counts add up to the number of items |
| Parsing.ValidRowsInOrder | fast_api_con_rest.py:658-660 | the valid rows are exactly the rows of the items that validate, in input order |
| Parsing.ErrorsPerItem | fast_api_con_rest.py:661-666 | each error carries the index of a failed item, the table and its field errors, in index order; every failed item has an error; no valid item has one |
| Quality.KeyErrors | fast_api_con_rest.py:156-171 | a record has at most two errors, none exactly when its non-null keys exist, each with its index and the employee table |
| Quality.AcceptedEmployees | fast_api_con_rest.py:172-173 | the kept employees are no more than the input and all have existing references |
| Quality.ApplyQualityRules | fast_api_con_rest.py:123-180 | the loop keeps and reports as the specification functions say; departments and jobs pass unchanged with no error |
| Quality.AcceptedIffReferencesExist | fast_api_con_rest.py:155-173 | an employee is kept exactly when each non-null foreign key exists, and the kept ones are in input order |
| Quality.OneErrorPerMissingKey | fast_api_con_rest.py:158-171 | one error per missing key, each naming a record of the batch, a foreign-key field and its missing value |
| Quality.RejectedReported | fast_api_con_rest.py:155-173 | every rejected employee is reported by one or two errors |
| Quality.AllReferencesExist | fast_api_con_rest.py:155-173 | when every reference exists, all employees are kept in order with no error |
| Store.WithRows | fast_api_con_rest.py:198 | replacing one table's rows leaves the other two tables as they were |
| Store.OverwriteKeys | fast_api_con_rest.py:192-193 | after `ON CONFLICT DO UPDATE` the keys are the old ones plus the batch's, and other keys keep their rows |
| Store.OverwriteLast | fast_api_con_rest.py:192-193 | a key of the batch holds the last row submitted with it |
| Store.OverwriteAt | fast_api_con_rest.py:192-193 | the keys of an overwritten table, the rows of keys outside the batch, and the last-submitted row of each key of the batch |
| Store.OverwriteIdempotent | fast_api_con_rest.py:192-193 | overwriting with the same batch twice gives the same table as once |
| Store.UpsertEffect | fast_api_con_rest.py:186-253 | a successful upsert returns the batch size and maps each key to its last row; a failure commits nothing; other tables never change; an empty batch returns 0 |
| Store.UpsertFailsIff | fast_api_con_rest.py:195-202 | an upsert fails exactly when some row does not fit its columns or references a missing row, or a key repeats within a page |
| Store.SinglePageDuplicates | fast_api_con_rest.py:197 | within 1090 rows, any repeated key fails the statement |
| Store.UpsertTwice | fast_api_con_rest.py:186-253 | submitting the same batch twice leaves the store as submitting it once, and the repeat answers as the first did |
| Store.UpsertPreservesValid | fast_api_con_rest.py:224-253 | an upsert of validated rows keeps the store's invariant: keys match ids, rows fit, no dangling reference |
| Store.DeletePreservesValid | fast_api_con_rest.py:576-578 | a delete keeps the invariant: a table still referenced by employees is not emptied |
| Store.Database.constructor | fast_api_con_rest.py:75-87 | a connection sees the given committed tables |
| Store.Database.Commit | fast_api_con_rest.py:198 | a commit replaces one table's rows and nothing else |
| Store.Database.Upsert | fast_api_con_rest.py:186-202 | the shared upsert body: the new state and the result are the upsert specification's |
| Store.Database.UpsertDepartamentos | fast_api_con_rest.py:186-202 | `upsert_departamentos` follows the upsert specification for departments |
| Store.Database.UpsertTrabajos | fast_api_con_rest.py:205-221 | `upsert_trabajos` follows the upsert specification for jobs |
| Store.Database.UpsertEmpleados | fast_api_con_rest.py:224-253 | `upsert_empleados` follows the upsert specification for employees |
| Store.Database.DeleteAll | fast_api_con_rest.py:572-588 | `DELETE FROM tabla` follows the delete specification: all rows gone and counted, or nothing changes |
| Store.Stage | fast_api_con_rest.py:197 | the paged statement succeeds exactly when the batch is admissible, and then stages the overwritten table |
| Ingest.FirstBadSize | fast_api_con_rest.py:715-719 | the first group whose size is outside 1..1000, and none exactly when all sizes are in range |
| Ingest.NormalizePayload | fast_api_con_rest.py:694-719 | the normalisation loop computes the specification's groups or error |
| Ingest.NamedGroupsShape | fast_api_con_rest.py:704-710 | when the named groups are built, each group is keyed by a registry table name present in the request and holds that name's list, a registry name is present exactly when it has a group, and the keys are the present names in registry order |
| Ingest.NamedGroupsOk | fast_api_con_rest.py:704-710 | the named groups are built exactly when each present table name holds a list |
| Ingest.PresentKeysOrdered | fast_api_con_rest.py:704-710 | the keys visited name registry tables present in the request, in strictly increasing registry position |
| Ingest.NormalizeKeyed | fast_api_con_rest.py:704-710 | a successful normalization without an explicit `tabla`/`registros` pair yields exactly one group per table name present, holding that name's list, in registry order |
| Ingest.NormalizeShape | fast_api_con_rest.py:694-719 | one to three groups of 1..1000 records each; the explicit `tabla`/`registros` pair is taken as given; otherwise one group per present table name holding its list, in registry order (departments, then jobs, then employees), each table at most once |
| Ingest.ProcessGroupOn | fast_api_con_rest.py:726-748 | one group: parse, quality rules against the current store, then upsert, as specified |
| Ingest.RecibirTransacciones | fast_api_con_rest.py:670-752 | the request's new store and response are the specification's |
| Ingest.ParsedRowsWellFormed | fast_api_con_rest.py:728 | the rows a parse keeps have their table's shape and meet the constraints |
| Ingest.AcceptedWellFormed | fast_api_con_rest.py:732 | the quality rules keep a subset of their input with existing references |
| Ingest.ProcessGroupFailsClean | fast_api_con_rest.py:736-742 | a group that fails commits nothing |
| Ingest.ProcessGroupPreservesValid | fast_api_con_rest.py:726-748 | each group keeps the store's invariant |
| Ingest.IngestPreservesValid | fast_api_con_rest.py:670-752 | no request leaves a stored employee referencing a missing department or job |
| Ingest.RunGroupsPreservesValid | fast_api_con_rest.py:726-748 | running the groups in order keeps the invariant |
| Ingest.RunGroupsFailure | fast_api_con_rest.py:726-748 | a failed run stops at one group: the earlier groups succeeded and their store is kept |
| Ingest.FailedRequestKeepsEarlierGroups | fast_api_con_rest.py:694-752 | a rejected payload changes nothing; a failing group keeps the earlier groups' commits and adds none |
| Ingest.GroupAccounts | fast_api_con_rest.py:744-748 | a group reports its table and counts consistently, and each record not kept is reported by one or two errors |
| Ingest.RunGroupsAccounts | fast_api_con_rest.py:723-750 | one report per group, and every record not upserted is reported |
| Ingest.IngestAccounts | fast_api_con_rest.py:670-752 | a successful request reports each normalised group of 1..1000 records, and its errors cover every record not upserted |
| Ingest.ValidatedColumnsFit | fast_api_con_rest.py:93-110 | a validated row fits its columns exactly when its integers fit 32 bits and its text has no NUL |
| Ingest.GroupUpsertFailure | fast_api_con_rest.py:732-742 | after the quality rules, a group's upsert never fails on a foreign key, only on a value that does not fit or a key repeated in a page |
| Codec.Columns | fast_api_con_rest.py:840-858 | each table's columns in schema order, with an int32 column for each integer field and a string column for each name and date |
| Codec.Project | fast_api_con_rest.py:865 | a stored record has exactly the table's columns |
| Codec.ExportDecode | fast_api_con_rest.py:814-869 | what a successful export writes reads back, in the same format, as one mapping per record, and the count is the number of records |
| Codec.ExportFailure | fast_api_con_rest.py:814-869 | an export fails exactly when its library is missing or a record does not fit; only Avro leaves a file then, and it reads back as a proper prefix of the projected records, all of which fit |
| Codec.PartialBeforeFirstBlock | fast_api_con_rest.py:824-827 | a failed Avro export of fewer records than one block leaves a file that reads as no records, not as a failure |
| Codec.ProjectIdentity | fast_api_con_rest.py:865 | a record with exactly the table's columns is stored as it is |
| Codec.ExportedRowFits | fast_api_con_rest.py:779-869 | a stored row's dictionary fits Parquet always and Avro unless it is an employee with a null foreign key |
| Locator.MatchBackupName | fast_api_con_rest.py:517-524 | a matched name yields an 8-digit date |
| Locator.BackupNameMatches | fast_api_con_rest.py:517 | every name the exporter writes is matched by its table's pattern, with or without a final newline, dated by its timestamp |
| Locator.BackupNameFormat | fast_api_con_rest.py:531 | the `formato` of an exporter name is its extension (with the final newline when there is one) |
| Locator.MatchedNameShape | fast_api_con_rest.py:517 | every matched name is `{tabla}_{ts}.{ext}`, possibly with a final newline |
| Locator.TablesSeparated | fast_api_con_rest.py:517 | a name matched for one table is never matched for another |
| Locator.ListBackups | fast_api_con_rest.py:507-541 | the locator loop computes the specification's answer, and `existen` holds exactly when the count is positive and equals the number of files |
| Locator.ListedIff | fast_api_con_rest.py:520-532 | the listed entries are exactly the matching names (dated today when asked), in directory order, with path, date and format |
| Locator.EntryOfBackupName | fast_api_con_rest.py:527-532 | an exporter name is listed with its path, its timestamp's date and its extension |
| Locator.ExportedBackupFound | fast_api_con_rest.py:507-541 | once an exporter name is in the directory, the locator reports backups, that file among them |
| Locator.LocateEntries | fast_api_con_rest.py:509-541 | for a known table and a non-empty directory string, the answer is built from the listed entries |
| Backups.Disk.constructor | fast_api_con_rest.py:823-826 | the disk holds the given files |
| Backups.Disk.Write | fast_api_con_rest.py:825-826 | a write creates or replaces one file and nothing else |
| Backups.BackupRequest | fast_api_con_rest.py:883-895 | an accepted request has a non-empty table list and a non-empty directory |
| Backups.BackupRequestAccepts | fast_api_con_rest.py:883-895 | a request is accepted exactly when the format is known, `tablas` is absent, null or a non-empty list, and `directorio` is falsy or a string; it defaults to all tables and "respaldos" |
| Backups.ObtenerDatosTabla | fast_api_con_rest.py:758-776 | the loop returns the exported dictionaries of the table in scan order |
| Backups.EnumerationSize | fast_api_con_rest.py:764-765 | a full scan reads as many rows as the table holds |
| Backups.GenerarRespaldos | fast_api_con_rest.py:872-931 | the disk afterwards and the response are those of checking the request and then exporting each listed table in turn to its own path, stopping at the first failure |
| Backups.RespaldarItem | fast_api_con_rest.py:903-921 | one pass of the loop refuses an unhashable or unknown table name, and otherwise writes the table's export to its path and answers its entry, or the export's error |
| Backups.StoredTableExport | fast_api_con_rest.py:907-914 | exporting a table of a valid store fails only when its library is missing or, in Avro, an employee lacks a key; otherwise the file holds the table's rows and the count is their number |
| Backups.BackupPathsDistinct | fast_api_con_rest.py:908-909 | two tables never share a backup path in one call |
| Backups.ExportStepOkIff | fast_api_con_rest.py:903-921 | one item succeeds exactly when it names a table that can be exported |
| Backups.ExportItemsOkIff | fast_api_con_rest.py:903-921 | the loop succeeds exactly when every item can be exported |
| Backups.ExportItemsRecorded | fast_api_con_rest.py:903-921 | a successful loop answers each item with its entry, and each entry's path holds its table's file |
| Backups.GeneratedBackups | fast_api_con_rest.py:872-931 | a successful call answers each item with its table, the format, the row count and the path under the directory with the call's single timestamp |
| Backups.GenerateSucceedsIff | fast_api_con_rest.py:872-931 | a call succeeds exactly when the request is well formed and every item can be exported |
| Backups.ExportItemsFrame | fast_api_con_rest.py:903-921 | the loop writes nothing but its own backup paths |
| Backups.GenerateFrame | fast_api_con_rest.py:872-931 | every other file is left as it was, and a rejected request touches no file |
| Backups.GeneratedBackupFound | fast_api_con_rest.py:507-541 | after a successful backup, the locator finds each written file in the directory, dated by the timestamp and with the format's extension |
| Backups.RecordedFound | fast_api_con_rest.py:507-541 | the locator finds the file of each recorded entry in a listing of the directory |
| Backups.NoSlashInName | fast_api_con_rest.py:908 | a backup name has no path separator, so it sits directly in the directory |
| Restore.RestoreRequest | fast_api_con_rest.py:601-610 | an accepted request names a known format, a known table and a non-empty path; a rejected one lacks one of them |
| Restore.Restaurar | fast_api_con_rest.py:591-649 | the new store and the response are the specification's |
| Restore.RestorePreservesValid | fast_api_con_rest.py:591-649 | a restore keeps the store's invariant, and a failed one commits nothing |
| Restore.ParseSnapshot | fast_api_con_rest.py:651-667 | the dictionaries of a table's rows parse back to those rows with no error |
| Restore.UpsertStored | fast_api_con_rest.py:186-253 | a table's own rows upsert to the store unchanged and count the table's rows |
| Restore.QualityStored | fast_api_con_rest.py:123-180 | a table's own rows pass the quality rules unchanged with no error |
| Restore.RestoreSnapshot | fast_api_con_rest.py:615-647 | for a store kept valid by the service's own writes (positive ids, existing references), restoring a file holding a table as the backup wrote it changes nothing and reports every row restored, received and valid, at any size |
| Restore.ProcessStored | fast_api_con_rest.py:615-647 | processing the group of a table as the backup wrote it leaves the store as it was and reports every row received, valid and restored, with no error |
| Restore.GeneratedBackupRestores | fast_api_con_rest.py:591-649 | for a store kept valid by the service's own writes (positive ids, existing references), restoring any file a successful backup reports leaves the store as it is and reports the table's rows restored |
| Clear.LimpiarTabla | fast_api_con_rest.py:550-588 | the new store and the response are the specification's |
| Clear.ClearGate | fast_api_con_rest.py:564-583 | the store changes only when the table is known, the locator reports backups and the delete commits; then exactly that table is emptied and its former rows counted |
| Clear.ClearPreservesValid | fast_api_con_rest.py:572-588 | a clear keeps the store's invariant |
| Clear.ClearDefaults | fast_api_con_rest.py:560-562 | omitting `directorio` and `solo_hoy` asks for today's backups in "respaldos"; a falsy directory means "respaldos" |
| Clear.ClearAfterBackup | fast_api_con_rest.py:567-583 | when the directory holds an exporter name for the table, the clear is the table's delete |
| Text.StripEmptyIffAllSpace | modelos.py:99-106 | `not s.strip()` holds exactly when the field is all whitespace |
| Text.FirstPart | modelos.py:173 | `split('.')[0]` is a prefix without the separator, followed by it when shorter |
| Text.LastPart | fast_api_con_rest.py:531 | `split('.')[-1]` is a suffix without the separator, preceded by it when shorter |
| Text.ReplaceChar | modelos.py:172 | `replace('T', ' ')` leaves no `T`, puts a space where each `T` was, and keeps every other character in place |
| Text.ReplaceCharUndo | modelos.py:172 | replacing back restores the text when the new character did not occur in it |
| Text.DecimalRoundTrip | modelos.py:179-183 | the text `str(int)` writes parses back as the same integer |
| Text.PyIntOfDecimal | modelos.py:179-183 | `int(str(n)) == n` for an integer of at most 4300 digits |
| Text.PyIntRefusesLong | modelos.py:179-190 | `int` refuses a string of more than 4300 digits (Python's ValueError) |
| Text.PathJoin | fast_api_con_rest.py:909 | the joined path ends with the name |
| Text.PathJoinInjective | fast_api_con_rest.py:909 | one directory joined with two names gives two paths unless the names are equal |
| Text.SplitJoin | fast_api_con_rest.py:531 | splitting a joined sequence on a separator none of the parts contains gives the parts back |
| CsvBatches.Body | modelos.py:93-94 | the header is dropped from hired_employees.csv, and only an empty hired_employees.csv fails |
| CsvBatches.StripFields | modelos.py:101 | a hired row keeps each field stripped, or null when it is blank |
| CsvBatches.AsRead | modelos.py:107 | other rows keep every field as read |
| CsvBatches.ProcesarCsvPorLotes | modelos.py:84-121 | the generator's loop yields what the batching specification says |
| CsvBatches.RunInvariant | modelos.py:96-113 | while reading, the yielded batches are full, the current one is not, and together they are the accepted rows so far, which the total counts |
| CsvBatches.BatchSizes | modelos.py:110-116 | with a positive batch size every batch has 1 to `tamano_lote` rows, all but the last exactly `tamano_lote`; end to end they are the accepted rows in order, and the total is their number |
| CsvBatches.NonPositiveBatchSize | modelos.py:110-112 | with `tamano_lote <= 0` one batch is yielded per line, holding its row or nothing |
| CsvBatches.HiredFilter | modelos.py:98-103 | a hired row is accepted exactly when its first field is not blank; fields are stripped and null exactly when blank |
| CsvBatches.OtherFilter | modelos.py:104-108 | another row is accepted exactly when no field is blank (so a row with no fields is accepted), and is kept as read |
| CsvBatches.BlankLineBatched | modelos.py:104-108 | a blank line of a catalog file reaches a batch as a row with no fields |
| CopyLines.BufferRoundTrip | modelos.py:128-134 | splitting the COPY buffer at newlines and tabs gives back every row's raw fields when no field holds a tab or newline |
| CopyLines.InsertarLoteCatalogo | modelos.py:123-141 | the buffer holds one `fila[0] TAB fila[1]` line per row; a row with fewer than two fields fails the whole batch |
| CopyLines.CatalogRoundTrip | modelos.py:143-158 | for ids and names without tab, newline or backslash, COPY reads back exactly each row's id and name |
| CopyLines.BlankLineFailsCatalog | modelos.py:129-136 | a blank line of a catalog file makes the COPY of its batch raise IndexError |
| CopyLines.Strftime | modelos.py:181 | a written date starts with a digit, holds no tab or newline and has at least 19 characters |
| CopyLines.InsertarLoteEmpleados | modelos.py:160-200 | the buffer holds the lines of the rows not skipped, the count is their number, and COPY runs only when it is positive |
| CopyLines.EmployeeFieldsMeaning | modelos.py:166-190 | for a written row, the integers parse back to the cells' values, absent cells are `\N`, and the date is `\N` exactly when empty or unparsable and otherwise its formatted value |
| CopyLines.EmployeeRowWritten | modelos.py:166-190 | a row is written exactly when it has five cells, an id that `int` accepts (at most 4300 digits), and foreign keys that `int` accepts when present |
| CopyLines.LongIdSkipped | modelos.py:179-190 | a row whose id has more than 4300 digits is skipped, not written |
| CopyLines.EmployeeRoundTrip | modelos.py:179-187 | COPY reads back five fields per written row, in order |
| CopyLines.HiredRowSkipped | modelos.py:98-103 | a row from hired_employees.csv is skipped exactly when it has fewer than five fields, or its id or a non-blank key is refused by `int` (not an integer, or more than 4300 digits) |
| Seqs.SomesIff | fast_api_con_rest.py:520-532 | the present values of a sequence of options, in order, and which positions they come from |

## Left out

- HTTP layer. Routing, status codes (400 against 500 are one error value each), CORS, the
  API key, the security middleware, the rate limiter, the metrics endpoint and the UI are
  not modelled.
- Database connection and schema setup. `obtener_conexion_db`, `crear_tablas`,
  `asegurar_esquema` and `contar_registros_tabla` are I/O. A connection that fails to open
  is not modelled, and neither is a query that raises for reasons outside the data.
- Concurrency is not modelled. This covers two requests interleaving and a backup file
  deleted between the locator's check and the delete.
- Pydantic coercion is modelled as pydantic 2 does it in lax mode: ints, booleans,
  integral floats, and strings with surrounding whitespace, a sign, underscores between
  characters and a zero fraction. Its exact error messages are not modelled, and neither
  is Unicode digit handling in `int()` or in the pattern's `\d`.
- Records.CoerceInt: the whitespace stripped is Python's (`str.isspace`), which also
  includes the four separator controls U+001C to U+001F that pydantic's core keeps; the
  4300-character limit counts characters where pydantic counts UTF-8 bytes, which differs
  only for non-ASCII strings, and those are refused either way.
- Dates. Pydantic's ISO-8601 parser, `isoformat` and `strptime` are parameters. The ranges
  of PostgreSQL timestamps are not checked.
- Codec internals. fastavro and pyarrow are abstracted: an export returns a file value and a
  reader returns its records. fastavro closes a block when its buffer reaches
  `sync_interval` bytes; the model closes one every `avroBlock` records, so which records
  a partial Avro file holds is exact only up to that abstraction. The Avro writer's integer
  range is not modelled.
- `os.makedirs` failures are not modelled. The target directory is assumed creatable.
- Durations (`duracion_ms`, `duracion_ms_total`) and the echo of `directorio` and `tabla`
  in the locator's response are not modelled.
- `print` output, and `importar_todos_los_datos` (the driver of the CSV load), are not
  modelled.
- CsvBatches.ProcesarCsvPorLotes: the generator's laziness, which interleaves with its
  consumer, is not modelled. The batches are a list, and the csv module's quoting rules are
  not modelled (the file's lines arrive already split into fields).
- CopyLines.BufferRoundTrip: `CopyRows` only splits at newlines and tabs. COPY's text format
  then decodes backslash escapes in each field (`\N` alone is NULL, `\t` a tab, `\\` a
  backslash, octal and hex escapes, and any other escaped character stands for itself). That
  decoding is not modelled, so the lemma is about the raw fields.
- CopyLines.CatalogRoundTrip: the read-back is stated only for ids and names without a
  backslash. A name holding one is changed by COPY's unescaping (`R\D` loads as `RD`, and a
  name `\N` loads as NULL and violates NOT NULL), and that is not modelled.
- CopyLines.EmployeeRoundTrip: COPY's text-format backslash escapes are not modelled, so the
  round trip is stated for the tab and newline split only and requires names without tabs
  or newlines.
- CopyLines.Strftime: the year is padded to four digits. Years below 1000 may be written
  unpadded on some C libraries, and that is not modelled.
