# NoteHunt file-state core, in Dafny

NoteHunt keeps a durable record of every file under a watched directory, one row per path hash.
Crawls and live change notifications feed that record, and the indexer reads from it.
This project models the record and the pieces around it:

- `database_queries.dfy` (module `DatabaseQueries`) holds the `file_states` table and its SQL statements.
  The table is a `map` from `File_Path_Hash` to the rest of the row, so a hash can have at most one row.
  The schema's CHECK and column-width constraints are the predicate `TableValid`.
  Each statement is a pure function from the old table to the new one: `Merged`, `MarkedDeleted`,
  `MarkedPending`, `FlaggedStale`, `Removed` and `PendingRows`.
  The class `FileStatesTable` holds the table in its `rows` field and executes these statements.
  Its methods keep `Valid()`.
- `md5_util.dfy` (module `MD5Util`) models `toHex` as a loop over signed Java bytes.
  It proves that loop against `HexOf`, which has a decoder `FromHex` and a round-trip lemma.
  `md5Hex` is `HexOf` applied to the digest of the UTF-8 bytes. Both the digest and the encoder are function fields of `Platform`.
- `file_result.dfy` (module `FileResults`) models the `FileResult` value: its two constructors, `getExc` and `toString`.
- `file_watcher.dfy` (module `FileWatcher`) models the extension filter as a search loop.
  It also models the loop that reports the polled events of one watch key.
- `completion_event.dfy` (module `CompletionEvents`) models `SetFilesToCompleteEvent` as a class.
  Its list is a shared object, and each added result is stamped COMPLETE in place.
- `wrappers.dfy` holds `Option`, `Result` and `Outcome`.

Where the documented design of NoteHunt and its code differ, the model follows the code:
- The MERGE stores whatever Status the caller supplies. The code does not derive Pending or Error from an observation.
- `SELECT_PENDING_FILES` has no ORDER BY, so `PendingRows` is an unordered map and not a sequence.
- `REMOVE_FILES_FROM_TABLE` physically deletes rows.
- No statement in the code sets a row to Complete or In_Progress, and none checks a completion against the current status.
  The model adds no such transition.

## Model

| member | source | states |
|---|---|---|
| MD5Util.Unsigned | notehunt/src/main/java/dev/notequest/util/MD5Util.java:26 | `b & 0xFF` is the unique value below 256 congruent to the signed byte |
| MD5Util.Format02x | notehunt/src/main/java/dev/notequest/util/MD5Util.java:26 | `%02x` yields exactly two lowercase digits that read back, high nibble first, as the value |
| MD5Util.HexOf | notehunt/src/main/java/dev/notequest/util/MD5Util.java:21-29 | the hex text is twice as long as the bytes, lowercase hex only, and byte i sits at characters 2i and 2i+1, high nibble first, from its unsigned value |
| MD5Util.ToHex | notehunt/src/main/java/dev/notequest/util/MD5Util.java:21-29 | the builder loop produces exactly `HexOf` of the input: length 2n, lowercase hex |
| MD5Util.HexRoundTrip | notehunt/src/main/java/dev/notequest/util/MD5Util.java:21-29 | decoding consecutive digit pairs of the hex text recovers the original bytes, negative ones included |
| MD5Util.HexOfInjective | notehunt/src/main/java/dev/notequest/util/MD5Util.java:21-29 | distinct byte sequences never share a hex text |
| MD5Util.Md5Hex | notehunt/src/main/java/dev/notequest/util/MD5Util.java:8-19 | the result is 32 lowercase hex characters that decode to the 16-byte digest of the input's UTF-8 bytes |
| DatabaseQueries.Merged | notehunt/src/main/java/dev/notequest/models/DatabaseQueries.java:35-72 | an unseen hash gains one row with the five values verbatim, or the statement fails when they break the schema (widths counted in UTF-16 code units). A matched row is updated iff the incoming timestamp is newer, or equal with a status other than 'Pending'. An update replaces Status, Last_Modified and Error_Message and keeps File_Path. No other row changes, no stored timestamp decreases, and the constraints are preserved |
| DatabaseQueries.MergeIdempotent | notehunt/src/main/java/dev/notequest/models/DatabaseQueries.java:48-56 | merging the same values twice gives the same table as merging them once |
| DatabaseQueries.MergeNewestWins | notehunt/src/main/java/dev/notequest/models/DatabaseQueries.java:48-71 | for two valid observations of one path with different timestamps, both merge orders give the same table, and that table is the one the newer observation alone produces |
| DatabaseQueries.OlderAfterNewerIsNoOp | notehunt/src/main/java/dev/notequest/models/DatabaseQueries.java:48-56 | an older observation merged after a newer one of the same path leaves the table unchanged |
| DatabaseQueries.NewerAfterOlderOverrides | notehunt/src/main/java/dev/notequest/models/DatabaseQueries.java:48-71 | a newer observation merged after an older one yields exactly the table the newer one alone yields |
| DatabaseQueries.MarkedDeleted | notehunt/src/main/java/dev/notequest/models/DatabaseQueries.java:74-81 | same keys, nothing inserted; rows whose hash is listed become 'Deleted' and keep every other column; unlisted rows are untouched; constraints preserved |
| DatabaseQueries.MarkedPending | notehunt/src/main/java/dev/notequest/models/DatabaseQueries.java:83-89 | same keys, nothing inserted; listed rows become 'Pending' and keep every other column; unlisted rows are untouched; constraints preserved |
| DatabaseQueries.MarkedDeletedIdempotent | notehunt/src/main/java/dev/notequest/models/DatabaseQueries.java:74-81 | marking the same hashes deleted twice equals doing it once |
| DatabaseQueries.MarkedPendingIdempotent | notehunt/src/main/java/dev/notequest/models/DatabaseQueries.java:83-89 | marking the same hashes pending twice equals doing it once |
| DatabaseQueries.FlaggedStale | notehunt/src/main/java/dev/notequest/models/DatabaseQueries.java:92-99 | every row whose hash is absent from the set ends 'Deleted' (every row, for an empty set); rows in the set are untouched; only Status ever changes; constraints preserved |
| DatabaseQueries.FlaggedStaleIdempotent | notehunt/src/main/java/dev/notequest/models/DatabaseQueries.java:92-99 | sweeping twice with the same set equals sweeping once |
| DatabaseQueries.FlaggedStaleIsMarkDeletedOfAbsent | notehunt/src/main/java/dev/notequest/models/DatabaseQueries.java:74-99 | the sweep equals the bulk mark-deleted of the stored hashes outside the set; the `Status <> 'Deleted'` guard changes no outcome |
| DatabaseQueries.Removed | notehunt/src/main/java/dev/notequest/models/DatabaseQueries.java:102-107 | exactly the rows whose hash is outside the set remain, unchanged |
| DatabaseQueries.PendingRows | notehunt/src/main/java/dev/notequest/models/DatabaseQueries.java:109-114 | exactly the stored rows with Status 'Pending', with their keys and unchanged |
| DatabaseQueries.PendingAfterMarkDeleted | notehunt/src/main/java/dev/notequest/models/DatabaseQueries.java:74-114 | after marking hashes deleted, the pending rows are the earlier ones minus those hashes |
| DatabaseQueries.PendingAfterMarkPending | notehunt/src/main/java/dev/notequest/models/DatabaseQueries.java:83-114 | after marking hashes pending, the pending hashes are the earlier ones plus the stored listed hashes |
| DatabaseQueries.PendingAfterSweep | notehunt/src/main/java/dev/notequest/models/DatabaseQueries.java:92-114 | after a sweep, only hashes in the crawl's set can still be pending |
| DatabaseQueries.PendingAfterRemove | notehunt/src/main/java/dev/notequest/models/DatabaseQueries.java:102-114 | after removing hashes, the pending rows are the earlier ones minus those hashes |
| DatabaseQueries.Utf16Length | notehunt/src/main/java/dev/notequest/models/DatabaseQueries.java:16-20 | the length a VARCHAR width is checked against: at least one and at most two code units per character |
| DatabaseQueries.Utf16LengthOfBmp | notehunt/src/main/java/dev/notequest/models/DatabaseQueries.java:16-20 | text without characters beyond the Basic Multilingual Plane has one code unit per character |
| DatabaseQueries.StatusWidthInCodeUnits | notehunt/src/main/java/dev/notequest/models/DatabaseQueries.java:20-28 | every status the CHECK constraint admits fits VARCHAR(15), and its code-unit length is its character count |
| DatabaseQueries.Md5HexFitsKeyColumn | notehunt/src/main/java/dev/notequest/models/DatabaseQueries.java:18 | every md5Hex result fits the VARCHAR(32) key column, counted in UTF-16 code units |
| DatabaseQueries.FileStatesTable.Open | notehunt/src/main/java/dev/notequest/models/DatabaseQueries.java:14-33 | CREATE TABLE IF NOT EXISTS keeps a persisted valid table or starts empty, and the constraints hold |
| DatabaseQueries.FileStatesTable.MergeInto | notehunt/src/main/java/dev/notequest/models/DatabaseQueries.java:35-72 | executes `Merged`; on a constraint violation it reports the error and leaves the table as it was |
| DatabaseQueries.FileStatesTable.MarkFilesAsDeleted | notehunt/src/main/java/dev/notequest/models/DatabaseQueries.java:74-81 | the table becomes `MarkedDeleted` of the old table and stays valid |
| DatabaseQueries.FileStatesTable.MarkFilesAsPending | notehunt/src/main/java/dev/notequest/models/DatabaseQueries.java:83-89 | the table becomes `MarkedPending` of the old table and stays valid |
| DatabaseQueries.FileStatesTable.FlagStaleFilesInDirectory | notehunt/src/main/java/dev/notequest/models/DatabaseQueries.java:92-99 | the table becomes `FlaggedStale` of the old table and stays valid |
| DatabaseQueries.FileStatesTable.RemoveFilesFromTable | notehunt/src/main/java/dev/notequest/models/DatabaseQueries.java:102-107 | the table becomes `Removed` of the old table and stays valid |
| DatabaseQueries.FileStatesTable.SelectPendingFiles | notehunt/src/main/java/dev/notequest/models/DatabaseQueries.java:109-114 | returns exactly the hashes whose row is 'Pending', with their rows, and modifies nothing |
| FileResults.NewSuccessResult | notehunt/src/main/java/dev/notequest/service/FileResult.java:43-48 | records path, the unchecked status and lastModified, leaves exc absent, and sets the hash to md5Hex of the path (32 lowercase hex characters) |
| FileResults.NewErrorResult | notehunt/src/main/java/dev/notequest/service/FileResult.java:58-63 | records path, the unchecked status and the exception, leaves lastModified absent, and sets the hash to md5Hex of the path |
| FileResults.HashFromPathOnly | notehunt/src/main/java/dev/notequest/service/FileResult.java:43-75 | two constructed results with the same path have the same hash, whatever their status, time or exception |
| FileResults.GetExc | notehunt/src/main/java/dev/notequest/service/FileResult.java:97-103 | never absent: the stored exception, or one whose message is "No exception recorded" |
| FileResults.GetExcOfConstructors | notehunt/src/main/java/dev/notequest/service/FileResult.java:58-103 | getExc returns the given exception for an error result and the sentinel for a success result |
| FileResults.ToString | notehunt/src/main/java/dev/notequest/service/FileResult.java:113-115 | starts with the path and a space, ends with a space and the hash, and its length is the four fields plus three separators |
| FileResults.ToStringFieldsRecoverable | notehunt/src/main/java/dev/notequest/service/FileResult.java:113-115 | when path and time text contain no space, splitting on single spaces yields path, status, lastModified and hash, in that order |
| FileResults.FileResultObject.SetFileStatus | notehunt/src/main/java/dev/notequest/events/SetFilesToCompleteEvent.java:24 | changes the object's status and nothing else about it |
| FileWatcher.StandardWatchEventKinds | notehunt/src/main/java/dev/notequest/service/FileWatcherService.java:35-39 | the watched kinds are create, delete and modify, three entries, and not OVERFLOW |
| FileWatcher.FileIsInExtensionFilter | notehunt/src/main/java/dev/notequest/service/FileWatcherService.java:77-92 | true for an empty list; otherwise true iff the path ends with one of the listed extensions |
| FileWatcher.FilterMonotone | notehunt/src/main/java/dev/notequest/service/FileWatcherService.java:84-88 | from a non-empty list, adding an extension never makes a passing path fail |
| FileWatcher.FirstExtensionNarrows | notehunt/src/main/java/dev/notequest/service/FileWatcherService.java:79-91 | from the empty list, the first extension can make a passing path fail |
| FileWatcher.PassingEvents | notehunt/src/main/java/dev/notequest/service/FileWatcherService.java:112-115 | filtering never yields more events than were polled |
| FileWatcher.PassingEventsMembership | notehunt/src/main/java/dev/notequest/service/FileWatcherService.java:112-115 | an event is kept iff it was polled and its context passes the filter |
| FileWatcher.PassingEventsAppend | notehunt/src/main/java/dev/notequest/service/FileWatcherService.java:112-115 | filtering preserves order: the kept events of a concatenation are those of each part, in turn |
| FileWatcher.PassingEventsNoFilter | notehunt/src/main/java/dev/notequest/service/FileWatcherService.java:79-81 | with no extensions, every event with a context is kept, in order |
| FileWatcher.ContextPrefix | notehunt/src/main/java/dev/notequest/service/FileWatcherService.java:113 | the number of leading events the loop can convert before a null context stops it |
| FileWatcher.ReportPolledEvents | notehunt/src/main/java/dev/notequest/service/FileWatcherService.java:112-115 | reports the polled events that pass the filter, in poll order, up to the first event without a context; fails iff such an event exists |
| CompletionEvents.FileResultList.constructor | notehunt/src/main/java/dev/notequest/events/SetFilesToCompleteEvent.java:16 | a new list is empty |
| CompletionEvents.FileResultList.Add | notehunt/src/main/java/dev/notequest/events/SetFilesToCompleteEvent.java:25 | appends the reference at the end and keeps the earlier ones in order |
| CompletionEvents.SetFilesToCompleteEvent.constructor | notehunt/src/main/java/dev/notequest/events/SetFilesToCompleteEvent.java:11-13 | keeps the caller's list object itself, unchanged |
| CompletionEvents.SetFilesToCompleteEvent.Empty | notehunt/src/main/java/dev/notequest/events/SetFilesToCompleteEvent.java:15-17 | starts with a fresh, empty list |
| CompletionEvents.SetFilesToCompleteEvent.GetCompletedFiles | notehunt/src/main/java/dev/notequest/events/SetFilesToCompleteEvent.java:19-21 | returns a fresh array holding the current entries in insertion order |
| CompletionEvents.SetFilesToCompleteEvent.AddFileResult | notehunt/src/main/java/dev/notequest/events/SetFilesToCompleteEvent.java:23-26 | stamps the caller's own result COMPLETE and appends that same object at the end; the earlier entries keep their order and identity |
| CompletionEvents.SnapshotSurvivesLaterAdd | notehunt/src/main/java/dev/notequest/events/SetFilesToCompleteEvent.java:19-26 | an array obtained before an add still holds the entries from before the add |
| CompletionEvents.SharedListSeesAdds | notehunt/src/main/java/dev/notequest/events/SetFilesToCompleteEvent.java:11-26 | an add through an event built on a caller's list is visible in that list |

## Left out

- JDBC plumbing is not modelled: the connection, commits, batching of prepared statements and console output (`handler/DatabaseHandler.java`, `doa/DatabaseHandler.java`). `GET_CURRENT_DIRECTORY_FILE_DIFF` is not part of this model, because the query class does not define it.
- The older schema in `doa/models/DatabaseQueries.java` is not modelled. The current schema replaces it.
- The event bus, its executor, the pending-files request and its future are concurrency and are not modelled.
- Configuration loading, the Lucene indexer, the crawler stub and `App` wiring are not modelled.
- The getter-only event holders carry no behaviour and are not modelled.
- FileWatcherService I/O is not modelled: watch registration, the blocking `take()`/`reset()` loop, the tree walk and the thread. The extension list is a parameter, because `FileTreeCrawler.FileExtention.TXT` is not part of this model.
- The printed console line for an event is represented by the event itself. Its text is not modelled.
- MD5 (RFC 1321) and UTF-8 encoding are uninterpreted function fields of `MD5Util.Platform`. The digest is only known to be 16 bytes.
- MD5Util.Md5Hex: the `NoSuchAlgorithmException` path is not modelled, because every Java platform provides MD5.
- Timestamps (`DATETIME`, `FileTime`) are integers. `FileTime.toString` is a parameter of `FileResults.ToString`.
- Paths are their `toString()` text.
- DatabaseQueries.Merged: NULL for a NOT NULL parameter is not modelled. Any constraint violation is one error value, and which constraint H2 reports first is not modelled. The unbounded `Error_Message VARCHAR` has no width check.
- DatabaseQueries.MarkedDeleted, DatabaseQueries.MarkedPending, DatabaseQueries.FlaggedStale and DatabaseQueries.Removed: the `ANY(?)` array is a set of hashes. NULL elements of the array are not modelled.
- FileResults.NewSuccessResult and FileResults.NewErrorResult: null arguments are not modelled. A null `lastModified` or `exc` would be stored. A null `Path` makes both Java constructors throw on `filePath.toString()`. A null status would be stored and print as "null" in `toString`.
- CompletionEvents.SetFilesToCompleteEvent.constructor and CompletionEvents.SetFilesToCompleteEvent.AddFileResult: null references are not modelled. In Java a null list passed to the constructor, or a null result passed to `addFileResult`, makes `addFileResult` throw.
- FileResults.GetExc: the sentinel is a value. The model cannot say that Java allocates a fresh exception object on each call.
- FileResults.FileResultObject.SetFileStatus: `setFileStatus` and `FileStatus.COMPLETE` are called by the completion event but not declared by `service/FileResult.java`. The model adds them only for that caller.
- FileWatcher.FilterMonotone: holds only from a non-empty extension list. An empty list accepts every path, and `FirstExtensionNarrows` shows that adding the first extension narrows the filter.
