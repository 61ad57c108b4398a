# fileService-go: file service core

This project models the core of a small Go file service:

- the service that uploads files, downloads them, lists them a page at a time, deletes them by id, and sweeps expired ones (`service/file_service.go`);
- the millisecond-plus-sequence id generator (`utils/id_generator.go`);
- the page result (`dto/page_result.go`);
- the two decisions the HTTP controller makes before it calls the service (`controllers/file_controller.go`). These are the normalisation of the `page` and `page_size` query parameters, and the rejection of an upload that carries no files.

The metadata store is the `fileInfo` table, modelled as a sequence of rows in insertion order. The upload directory is a map from file path to content.

`FileService`, `IDGenerator` and `FileController` are classes whose methods update these fields in place:

- `FileService.UploadFiles` is proved to compute the pure function `Uploads.Upload`, and the lemmas of module `Uploads` say what `Upload` does.
- `DeleteFilesByIds` and `CleanExpiredFiles` are proved to leave the table and the directory as a set-based sweep (`Table.SweptIds`, `Table.SweptPaths`) says.
- The listing is proved equal to `Service.ListPage`, and the lemmas about `ListPage` give its size, order, membership and page count.

What the code takes from its environment is passed in as parameters:

- the generator's clock readings;
- the upload dates;
- the UUIDs;
- which `MkdirAll`, save, insert and remove calls fail;
- the current time of the sweep.

Modules, one per file:

| file | module | models |
|---|---|---|
| `wrappers.dfy` | `Wrappers` | `Option` and `Result` |
| `models.dfy` | `Models` | `FileInfo`, `FileInfoDTO` and the uploaded file header |
| `id_generator.dfy` | `IdGenerator` | `GenerateID` and what it guarantees |
| `page_result.dfy` | `PageResults` | `NewPageResult` with Go's truncating division |
| `file_names.dfy` | `FileNames` | ASCII versions of `filepath.Ext`, `TrimSuffix`, `Join`, `ToLower`, `TrimSpace` and `Split`, and the stored-name scheme |
| `validation.dfy` | `Validation` | `validateFile` |
| `table.dfy` | `Table` | the SQL the service issues, as functions over the rows |
| `uploads.dfy` | `Uploads` | the upload loop as a function, and its properties |
| `file_service.dfy` | `Service` | `FileService` and the listing, delete and sweep lemmas |
| `controller.dfy` | `Controller` | query normalisation and the two handlers |

In three places the documented intent of the service and its code disagree. The model follows the code:

- The documented intent is that an upload that fails commits nothing. The code has no rollback: the rows and files of the files before the failing one stay. `Uploads.UploadKeepsPrefix` states what stays.
- The documented intent is that the allow list is case-insensitive. The code lower-cases only the extension, not the configured entries. `Validation.UpperCaseEntryMatchesNothing` shows the consequence.
- The documented intent is that the id generator is guarded by a lock. The code has no lock. The model is sequential (see "Left out").

## Model

| member | source | states |
|---|---|---|
| IdGenerator.Inc64 | utils/id_generator.go:21 | `sequence++` on int64: the result is one more than the input modulo 2^64, so it is the input plus one below the int64 maximum and wraps to the minimum at it |
| IdGenerator.ComposeId | utils/id_generator.go:28 | the composed id is below 2^64 |
| IdGenerator.ShiftKeepsLowBits | utils/id_generator.go:28 | `uint64(now) << 22` keeps exactly the low 42 bits of `now`, times 2^22 |
| IdGenerator.Next | utils/id_generator.go:20-25 | after a call the stored timestamp is the call's clock reading |
| IdGenerator.Issued | utils/id_generator.go:16-31 | a series of calls returns one id per clock reading |
| IdGenerator.IDGenerator.constructor | utils/id_generator.go:13 | the package-level generator starts zeroed |
| IdGenerator.IDGenerator.GenerateID | utils/id_generator.go:16-31 | same millisecond: sequence incremented, timestamp kept; new millisecond: sequence reset to 0 and timestamp set; the id composes timestamp and sequence |
| IdGenerator.ComposeIdDecodes | utils/id_generator.go:28 | for a 42-bit timestamp the id's high bits are the timestamp and its low 22 bits are `sequence & 0x3FFFFF` |
| IdGenerator.ComposeIdInBlock | utils/id_generator.go:28 | every id issued in a millisecond lies in that millisecond's block of 2^22 ids |
| IdGenerator.IssuedAt | utils/id_generator.go:16-31 | the i-th id of a series is the id issued from the state the first i calls left |
| IdGenerator.SameMillisecondIds | utils/id_generator.go:20-28 | calls within one fresh millisecond get sequence numbers 0, 1, 2, ... |
| IdGenerator.SameMillisecondIdsIncrease | utils/id_generator.go:20-28 | fewer than 2^22 calls in one millisecond return strictly increasing ids |
| IdGenerator.IncreasingClockIds | utils/id_generator.go:20-28 | calls at strictly increasing clock readings return strictly increasing ids |
| IdGenerator.RunSequence | utils/id_generator.go:20-25 | under a clock that never goes back, the sequence of a call is its distance from the first call of its millisecond |
| IdGenerator.MonotoneClockIdsIncrease | utils/id_generator.go:16-31 | uniqueness: with a non-decreasing 42-bit clock after the last timestamp and under 2^22 calls per millisecond, ids strictly increase |
| IdGenerator.NeighbourIdsIncrease | utils/id_generator.go:16-31 | under those conditions each call's id exceeds the previous one |
| IdGenerator.StepIncreases | utils/id_generator.go:20-28 | one call at a reading no earlier than the last returns a larger id |
| IdGenerator.SequenceWrapRepeatsId | utils/id_generator.go:21-28 | the (2^22+1)-th call in one millisecond repeats that millisecond's first id |
| IdGenerator.ClockRollbackReissuesId | utils/id_generator.go:20-28 | a clock that goes forward and back to a used millisecond reissues its first id |
| PageResults.GoQuo | dto/page_result.go:14 | Go's `/` truncates toward zero: what is left over, `a - q * b`, lies strictly within one divisor of zero and has the sign of `a` |
| PageResults.GoRem | dto/page_result.go:15 | Go's `%`: `a == (a / b) * b + a % b`, the remainder is smaller than the divisor in magnitude, and it has the sign of `a` |
| PageResults.NewPageResult | dto/page_result.go:13-26 | keeps items, total, page and size; the page count is the ceiling of total / pageSize |
| PageResults.CeilingDivision | dto/page_result.go:14-17 | quotient plus one on a positive remainder is ceiling division |
| PageResults.TotalPagesBounds | dto/page_result.go:13-26 | the pages hold every item, one page fewer would not, and no items means no pages |
| PageResults.FifteenRecordsMakeTwoPages | dto/page_result.go:13-26 | worked example of TotalPagesBounds: 15 records at 10 per page make 2 pages |
| FileNames.Ext | service/file_service.go:252 | `filepath.Ext`: "" or a suffix of the name starting with '.' and holding no further '.' or '/' |
| FileNames.ExtBelow | service/file_service.go:252 | the extension scan returns "" or a suffix of the name that starts with its only '.' and holds no '/' |
| FileNames.ExtOfDottedSuffix | service/file_service.go:252 | a name ending in a dotted suffix without further dots or slashes has that suffix as its extension |
| FileNames.ExtOfPlainSuffix | service/file_service.go:252 | appending text without '.' or '/' extends the extension, or keeps it empty |
| FileNames.Base | service/file_service.go:253 | base name followed by extension gives back the name |
| FileNames.IsUuidText | service/file_service.go:254 | UUID text holds no '.' and no '/' |
| FileNames.StoredNameCutsBack | service/file_service.go:251-255 | the stored name is the original name with "_" and the UUID inserted before the extension; cutting them out gives back the name |
| FileNames.StoredNameKeepsExt | service/file_service.go:251-255 | the stored name `base_uuid.ext` has the original extension |
| FileNames.StoredNameInjective | service/file_service.go:251-255 | two stored names are equal only for the same original name and UUID |
| FileNames.JoinParts | service/file_service.go:259 | `filepath.Join(dir, name)` is the name after the directory and one '/', or the name alone for an empty directory |
| FileNames.JoinInjective | service/file_service.go:259 | joining different names to one directory gives different paths |
| FileNames.StoredPathsDiffer | service/file_service.go:251-259 | different UUIDs give different stored paths |
| FileNames.ToLower | service/file_service.go:220 | the result has the same length and no ASCII capital: each capital becomes its small letter, and every other character is kept |
| FileNames.TrimLeadingShape | service/file_service.go:228 | leading trim removes a run of white space and no more |
| FileNames.TrimTrailingShape | service/file_service.go:228 | trailing trim removes a run of white space and no more |
| FileNames.TrimSpace | service/file_service.go:228 | `strings.TrimSpace`: the result is no longer than the entry and neither starts nor ends with white space |
| FileNames.TrimSpaceShape | service/file_service.go:228 | the trimmed entry is the slice between a leading and a trailing white-space run |
| FileNames.TrimSpaceEmpty | service/file_service.go:228 | an entry trims to "" exactly when it is all white space |
| FileNames.Split | service/file_service.go:225 | splitting at commas gives at least one piece, none holding a comma |
| FileNames.SplitJoin | service/file_service.go:225 | joining the pieces of a split with commas gives back the text |
| FileNames.SplitAfterPlain | service/file_service.go:225 | a comma-free prefix glues onto the first piece of the rest |
| FileNames.JoinSplit | service/file_service.go:225 | splitting comma-joined comma-free pieces gives back the pieces |
| Validation.ExtensionKey | service/file_service.go:220-223 | no extension gives ""; otherwise "." followed by the key is the lower-cased extension |
| Validation.ExtensionKeyPlain | service/file_service.go:220-223 | the key holds no '.', '/' or ASCII capital |
| Validation.LowerDotted | service/file_service.go:220-222 | lower-casing a dotted extension keeps the leading dot and adds no '.', '/' or capital |
| Validation.Validate | service/file_service.go:202-239 | each error occurs exactly under its condition, in the code's order: empty file, too large, empty name, unsupported type; None exactly when all checks pass |
| Validation.IsAllowedType | service/file_service.go:225-232 | the search loop answers true exactly when some trimmed entry equals the key |
| Validation.ValidateFile | service/file_service.go:202-239 | the validation steps return what Validate specifies |
| Validation.NoExtensionNeedsBlankEntry | service/file_service.go:220-232 | a name without extension passes the type check exactly when some entry is blank |
| Validation.StoredNameValidatesAlike | service/file_service.go:220-255 | a file validates the same under its stored name |
| Validation.DefaultEntriesPlain | config/config.go:59 | each default entry trims to itself, is not blank and has no comma |
| Validation.DefaultAllowList | config/config.go:59 | the default allow-list text splits into its twelve entries |
| Validation.DefaultAllowedIff | config/config.go:59 | under the default list a key passes exactly when it is one of the entries |
| Validation.DottedSuffixKey | service/file_service.go:220-223 | the key of a name ending in a dotted suffix without further dots or slashes is that suffix lower-cased, without its dot |
| Validation.DefaultAcceptsUpperCasePdf | service/file_service.go:220-232 | under the defaults `x.PDF` of acceptable size validates |
| Validation.DefaultRejectsExe | service/file_service.go:220-236 | under the defaults `x.exe` is rejected as unsupported |
| Validation.DefaultRejectsNoExtension | service/file_service.go:220-236 | under the defaults a name without extension is rejected as unsupported |
| Validation.UpperCaseEntryMatchesNothing | service/file_service.go:225-236 | the allow list "PDF" accepts no file name, since entries are not lower-cased |
| Table.SetRemoved | service/file_service.go:168 | `UPDATE status = 1 WHERE id IN ids` changes exactly the rows with a listed id to status 1 |
| Table.SetRemovedOnlyRises | service/file_service.go:168 | the update keeps ids unique and statuses binary; it keeps the id set; statuses only go from 0 to 1 |
| Table.SetRemovedOne | service/file_service.go:85 | updating one record by its id changes only that row |
| Table.SetRemovedTwice | service/file_service.go:141-173 | two updates in a row equal one update with the union of ids |
| Table.Query | service/file_service.go:151 | the query returns exactly the active rows its criterion selects |
| Table.QueryUniqueIds | service/file_service.go:151 | a query over a keyed table returns no id twice |
| Table.QueryRemovable | service/file_service.go:158-164 | walking the query result and keeping the removable rows gives the sweep's ids and paths |
| Table.SweepChangesExactlySwept | service/file_service.go:190-198 | the sweep retires exactly the selected rows whose removal does not fail and leaves every other row as it was |
| Table.SweepAgainFindsNothing | service/file_service.go:186-198 | sweeping again with the same selection finds nothing |
| Table.SweptIdsCount | service/file_service.go:171 | the number of swept ids is the number of swept rows |
| Table.DeleteCountBound | service/file_service.go:171 | a delete never counts more ids than the request lists |
| Table.BatchStepIds | service/file_service.go:141-173 | processing one more batch of ids sweeps exactly the union, and the counts add up |
| Table.BatchStepPaths | service/file_service.go:141-173 | the files removed by batches add up to those removed by the union |
| Table.FindActive | service/file_service.go:75 | `First` finds the earliest active row with the name, or None exactly when there is none |
| Table.ListedRows | service/file_service.go:106-114 | the listing query returns exactly the active rows whose name contains the filter |
| Table.ListedRowsCounts | service/file_service.go:106-114 | the listing holds each matching row as often as the table does and no other row, so its length is the number of matching records |
| Table.InsertByDate | service/file_service.go:117 | inserting a record adds exactly that record |
| Table.OrderByDateDesc | service/file_service.go:117 | ordering is a permutation |
| Table.InsertByDateKeepsOrder | service/file_service.go:117 | inserting into a newest-first list keeps it newest first |
| Table.OrderByDateDescSorts | service/file_service.go:117 | `ORDER BY uploadDate DESC` gives a newest-first permutation |
| Table.InsertByDateDatedAt | service/file_service.go:117 | inserting a record puts it ahead of the rows with its date and moves no other row of any date |
| Table.EqualDatesKeepTableOrder | service/file_service.go:117 | for every date, the rows with that date come out of the ordering in their table order |
| Table.Window | service/file_service.go:117 | `OFFSET LIMIT` returns at most limit consecutive rows from the offset, short only at the end |
| Uploads.NewRecordFields | service/file_service.go:49-56 | the inserted record has the generated id, status 0, the declared size and the upload date; its name keeps the extension and is one '_' and the UUID longer; its path joins that name to the upload directory |
| Uploads.ToDTO | service/file_service.go:277-286 | the record can be rebuilt from its DTO, field for field |
| Uploads.ToDTOInjective | service/file_service.go:277-286 | the conversion loses no field |
| Uploads.ToDTOs | service/file_service.go:119-123 | one DTO per record |
| Uploads.ToDTOsAt | service/file_service.go:119-123 | each DTO converts the record at its position |
| Uploads.ToDTOAt | service/file_service.go:119-123 | the DTO at position i converts record i |
| Uploads.UploadedRows | service/file_service.go:48-63 | one inserted record per stored file |
| Uploads.UploadedRowAt | service/file_service.go:48-63 | the record for file k carries the id of the generator's k-th call |
| Uploads.StoredPaths | service/file_service.go:251-259 | one stored path per file |
| Uploads.StoredPathsDistinct | service/file_service.go:251-259 | distinct UUIDs give every file of a batch its own path |
| Uploads.WrittenHolds | service/file_service.go:262-271 | after writing, each written path holds its file's bytes |
| Uploads.WrittenElsewhere | service/file_service.go:262-271 | paths not written keep their contents |
| Uploads.StepOutcome | service/file_service.go:36-61 | `UploadStep`, one round of the loop: it fails with the first failing check: validation, save, then insert |
| Uploads.StepEffects | service/file_service.go:36-64 | `UploadStep`: a round that stores a file appends its row, writes its bytes and advances the generator; a failed insert leaves the bytes and the advanced generator; earlier failures change nothing |
| Uploads.UploadFromReaches | service/file_service.go:36-67 | `UploadFrom`, the loop over the files: running it from any reached state finishes in a state that Finished describes |
| Uploads.Upload | service/file_service.go:25-68 | a `MkdirAll` failure changes nothing. Rows already in the table never change, and one row is appended per inserted file. Success means every file was inserted, with one DTO per file |
| Uploads.UploadFinishes | service/file_service.go:25-68 | a `MkdirAll` failure returns at once with nothing changed; otherwise the run is Finished |
| Uploads.IdsAppended | service/file_service.go:59 | an id is in the grown table exactly when it was there or is on an added row |
| Uploads.UploadedIds | service/file_service.go:50 | the rows inserted for the first k files carry the first k generated ids |
| Uploads.StoredIff | service/file_service.go:36-61 | file k is stored exactly when it validates, saves and inserts, and its id is new to the table and to the call |
| Uploads.OutcomeCases | service/file_service.go:36-61 | a round never reports a directory failure, and succeeds exactly when all its checks pass |
| Uploads.UploadSuccessNeeds | service/file_service.go:25-68 | success implies the directory was created, every file passes, and all ids are fresh |
| Uploads.UploadSuccessWhen | service/file_service.go:25-68 | if every file passes and the ids are fresh, the upload succeeds |
| Uploads.UploadSucceedsIff | service/file_service.go:25-68 | success exactly when `MkdirAll` succeeds, every file passes, and the ids are fresh |
| Uploads.UploadDirectoryFailure | service/file_service.go:32-34 | the result is the directory error exactly when `MkdirAll` fails, and then nothing changes |
| Uploads.UploadKeepsPrefix | service/file_service.go:36-65 | on failure the rows of the files before the failing one stay in the table (no rollback) |
| Uploads.UploadReportsFirstFailure | service/file_service.go:36-61 | on failure the error is the outcome of the first file that could not be stored |
| Uploads.SuccessRecord | service/file_service.go:48-64 | after a full run, row k is file k's new record, and DTO k converts it |
| Uploads.UploadReturnsRecords | service/file_service.go:48-67 | success returns one DTO per file, in order. Each is the inserted row, with the generated id, status 0, the declared size, the upload date, the stored name (same extension) and its path; earlier rows are unchanged |
| Uploads.UploadTraces | service/file_service.go:36-61 | whatever the outcome, every saved file was written to its path and the generator was called once per attempted file |
| Uploads.UploadThenRead | service/file_service.go:25-96 | after a successful upload with distinct UUIDs, each returned path holds that file's content |
| Service.ListPage | service/file_service.go:99-129 | a page keeps the requested page and size, holds at most pageSize items, and counts every matching record in its total |
| Service.PageOffset | service/file_service.go:100 | the offset skips exactly page - 1 whole pages |
| Service.ListPageShape | service/file_service.go:99-129 | a page holds at most pageSize items, short only at the end of the listing; the total counts all matches |
| Service.ListPageCount | service/file_service.go:126 | the page count covers the total with no empty trailing page |
| Service.ListPageItems | service/file_service.go:117-123 | item i is the DTO of the (offset + i)-th record of the newest-first listing |
| Service.ListPageNewestFirst | service/file_service.go:117 | a page is newest first |
| Service.ListPageMember | service/file_service.go:106-123 | every item is the DTO of an active table row whose name contains the filter |
| Service.FirstOfFifteen | service/file_service.go:99-129 | worked example of ListPageShape and ListPageCount: with 15 matches, page 1 of size 10 holds 10 items, total 15, 2 pages |
| Service.SweepAgeBoundary | service/file_service.go:179-198 | an active record 8 days old is retired and its file removed; one 6 days old is untouched |
| Service.ElemsSplit | service/file_service.go:141-147 | the ids up to a batch's end are those before it plus the batch |
| Service.CleanStep | service/file_service.go:190-198 | one loop round of the sweep keeps the table and the directory in step with the rows handled so far |
| Service.DeleteBatchRows | service/file_service.go:141-173 | the rows after one more batch are those of the union of batches, and the counts add up |
| Service.DeleteBatchBlobs | service/file_service.go:141-173 | the files after one more batch are those of the union of batches |
| Service.DeleteStep | service/file_service.go:158-164 | each round of the removal loop collects the id exactly when the removal did not fail |
| Service.FileService.constructor | service/file_service.go:22 | the service over a well-formed table |
| Service.FileService.SaveFile | service/file_service.go:242-274 | on success, writes the bytes to the stored path and returns the stored name; on failure, changes nothing |
| Service.FileService.Insert | service/file_service.go:59 | the insert succeeds exactly when not failed and the id is new, and then appends the row |
| Service.FileService.UploadFiles | service/file_service.go:25-68 | the result and the new table, directory and generator are those of Upload on the old state |
| Service.FileService.DownloadFile | service/file_service.go:71-96 | no active record: not found, nothing changes. File present: its bytes. File missing: that record alone is retired, and the call fails |
| Service.FileService.GetFileList | service/file_service.go:99-129 | returns ListPage of the table, with no error |
| Service.FileService.CleanExpiredFiles | service/file_service.go:179-199 | retires exactly the active records older than seven days whose removal does not fail, and removes their files |
| Service.FileService.RemoveBatchFiles | service/file_service.go:155-164 | removes the removable files of the batch and collects each of their ids once |
| Service.FileService.DeleteFilesByIds | service/file_service.go:132-176 | in batches of 500, retires exactly the listed active records whose removal does not fail, removes their files, and returns how many, at most the number of distinct ids |
| Controller.PageFromQuery | controllers/file_controller.go:85-88 | page ≥ 1: a parsed value ≥ 1 is kept, and an absent, unparsable or smaller value becomes 1 |
| Controller.Atoi | controllers/file_controller.go:85-90 | `strconv.Atoi(c.DefaultQuery(name, default))`: an absent parameter reads as the default, a given one as its parse result |
| Controller.MissingActsAsDefault | controllers/file_controller.go:85-90 | a request without `page` or `page_size` is normalised as the one that gives the default value |
| Controller.PageSizeFromQuery | controllers/file_controller.go:90-96 | 1 ≤ size ≤ 100: absent, unparsable or < 1 becomes 10, > 100 becomes 100, and anything else is kept |
| Controller.NormalisationIdempotent | controllers/file_controller.go:85-96 | normalising an already normalised page or size changes nothing |
| Controller.ListResponseBounded | controllers/file_controller.go:85-101 | whatever the query, a response holds at most 100 items, newest first, with every match counted |
| Controller.OffsetFitsInt64 | service/file_service.go:100 | for pages up to `INT64_MAX / 100 + 1` the offset fits in 64 bits, so the unbounded offset is Go's |
| Controller.LargePageOffsetOverflows | service/file_service.go:100 | beyond that bound the offset leaves the 64-bit range |
| Controller.FileController.constructor | controllers/file_controller.go:19-23 | a controller over one service |
| Controller.FileController.UploadFiles | controllers/file_controller.go:40-59 | no files: a bad-request answer, with the service untouched. Otherwise the service's Upload result is passed on |
| Controller.FileController.GetFileList | controllers/file_controller.go:83-110 | the response is the service's page for the normalised page and size |

## Left out

- File-system and database errors other than the injected ones are not modelled:
  - query errors and update errors in `DeleteFilesByIds` and `CleanExpiredFiles`;
  - `os.Stat` errors other than "not exist", and `ReadFile` errors in `DownloadFile`.
- Service.FileService.DeleteFilesByIds: never fails. It does not model the partial count returned with a query or update error (lines 151-153, 168-170).
- Service.FileService.GetFileList: the offset `(page - 1) * pageSize` is an unbounded integer. Go computes it in 64 bits, and it wraps once it passes `INT64_MAX`. How gorm treats a wrapped, possibly negative, offset is not part of this model. `Controller.OffsetFitsInt64` gives the pages for which the two agree, and `Controller.LargePageOffsetOverflows` shows the wrap.
- Controller.FileController.GetFileList: passes through any page `strconv.Atoi` accepts, so it inherits the offset wrap above for pages beyond `INT64_MAX / pageSize + 1`.
- Service.FileService.GetFileList: the error is always None, since the count and find calls ignore store errors in the code too. A store that fails is not modelled.
- Service.FileService.SaveFile: on a copy failure, the model writes nothing. The code can leave a partially written file.
- `os.Remove` failures are a set of paths given as input. "Already gone" counts as success, as in the code.
- `filepath.Join` is modelled as concatenation with "/", without `filepath.Clean`. This differs from Go on ASCII input too. With the default directory `./uploads`, Go stores and reports `uploads/<name>`, while the model has `./uploads/<name>`. The same goes for doubled or trailing slashes and `..` elements in the configured directory. This is the `filePath` of every record and DTO.
- Outside ASCII, the model does not match Go:
  - `strings.ToLower` folds ASCII only;
  - `TrimSpace` uses the Unicode white-space list but no other Unicode handling.
- The `LIKE` filter is substring containment. `%` and `_` in the filter and database collation are not modelled.
- Ties are not modelled in the order the database chooses:
  - `First` in `DownloadFile` takes the earliest row in table order;
  - `ORDER BY uploadDate DESC` breaks ties by table order (a stable insertion sort: `Table.EqualDatesKeepTableOrder` shows that, for every date, the rows with that date keep their table order).
- Upload dates keep the millisecond the model is given, and the table stores, orders and compares them at that precision. The `uploadDate` field has no precision tag (models/file_info.go:14), so when AutoMigrate creates the table (database/database.go:39) gorm's MySQL dialect makes the column `DATETIME`, which holds whole seconds. The model does not capture three consequences:
  - uploads within one second tie in the database, and `ORDER BY uploadDate DESC` then orders them as the database chooses, while the model orders them by their milliseconds;
  - the seven-day comparison of `CleanExpiredFiles` runs at the stored precision;
  - `UploadFiles` returns the unrounded date, while later listings and downloads read back the rounded one.
- Uploads.UploadReturnsRecords: states that each returned DTO carries the inserted row's date. In the database that row's date is rounded to whole seconds, as the line above says.
- `time.Now().AddDate(0, 0, -7)` is modelled as `now - 7 * 24 h` in milliseconds. Calendar days across daylight-saving changes are not modelled.
- Each upload date and each generator clock reading is a separate input. The model does not relate the two readings.
- UUIDs are inputs. Their randomness is not modelled; distinctness is a precondition where a lemma needs it.
- Go's nil slice versus empty slice for an empty result is not distinguished.
- Concurrency is not modelled. The shared generator is used sequentially, and the code has no lock either.
- HTTP parsing and JSON responses are not modelled: multipart parsing errors (controller lines 28-38), `DownloadFile`'s handler and URL unescaping. Query values arrive as `strconv.Atoi` results.
- Configuration loading is not modelled. Only the default size limit and allow list are stated, as constants.
- `uint64` ids are unbounded naturals. Ids above 2^64 cannot arise from ComposeId.

## Findings

None. The wrap-around of the id sequence and clock rollback are known and stated as lemmas (`IdGenerator.SequenceWrapRepeatsId`, `IdGenerator.ClockRollbackReissuesId`).
