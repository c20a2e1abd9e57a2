# Resumable chunked CSV upload, modelled in Dafny

This project models the four pieces of logic behind a resumable, chunked CSV upload:

- **The client transfer controller** (`ChunkedUpload`, hooks/useChunkedUpload.ts).
  - The hook's mutable refs become the fields of the class `Uploader`. The status array is an `array<ChunkStatus>` updated in place.
  - The controller validates the file and plans 1 MiB chunks.
  - It uploads every pending or failed chunk through a worker pool that shares one cursor. Each chunk gets a retry loop with quadratic backoff.
  - It recomputes uploaded bytes from the status array and asks the server to assemble the file.
  - It moves through the phases `idle`, `validating`, `initializing`, `uploading`, `finalizing`, `done`, `error` and `canceled`.
- **The finalize route** (`FinalizeRoute`, app/api/upload/finalize/route.ts).
  - It parses `chunk-<n>.bin` names.
  - It checks completeness in one of two modes: against an expected total (listing up to 25 missing indices), or a best-effort check for gaps below the largest index.
  - It concatenates the chunk payloads in listing order and previews the first 200 lines.
- **The CSV preview parser** (`Csv`, lib/csv.ts).
  - A quote-aware field splitter.
  - Line splitting and header normalisation.
  - Duplicate-header and ragged-row warnings.
  - Per-column type inference, blank counts and example values.
- **The sessions route** (`SessionsRoute`, app/api/upload/sessions/route.ts). It decides which directories of the data directory are upload sessions, counts their chunk files, picks their timestamps and sorts them newest first.

`Common` holds the option and outcome types, bytes and sums. `Text` holds decimal digits, the JavaScript `trim` whitespace set and prefix/suffix tests.

## How the system's effects appear in the model

**Network replies are inputs.**
- `net(i, a)` is the reply to the a-th request (counting from 0) for chunk i.
- `init` and `finReply` are the replies of the session-opening and finalize requests.
- A reply that reports an aborted fetch stands for the user pressing cancel while that request was in flight. The model applies `cancel` at that point, so the abort signal has fired exactly when a cancel happened.
- Inside the pool, the signal has fired exactly when the last claimed chunk's reply was an abort. No chunk is claimed after it.

**Concurrency is a sequence of steps.**
- The workers run as one sequential interleaving over the shared cursor.
- At each step one live worker either retires (the cursor is drained or the signal has fired), or claims the next selected index and uploads it.
- One chunk's upload, retries included, is a single step.

**Storage and the file system are inputs.**
- The finalize route sees storage as two functions: the chunk listing of a session (absent when the listing throws) and the payload of one stored file (absent when the read throws).
- The sessions route sees each data-directory entry together with what `stat` and `readdir` report for it.
- lib/storage is not part of this model. Listing order is therefore an input and is not assumed to be sorted.

**Decoding is a parameter.** The preview cuts the assembled bytes. Turning those bytes into text (`toString("utf8")`) is a parameter function `decode`.

## Model

| member | source | states |
|---|---|---|
| ChunkedUpload.ValidateFile | hooks/useChunkedUpload.ts:108-121 | A file passes iff it is present, has 1 to 100·1024·1024 bytes, and its name ends in `.csv` in any letter case. Otherwise it fails with the first violated check: no file, empty, too large, not CSV. |
| ChunkedUpload.CeilDivBounds | hooks/useChunkedUpload.ts:177 | The chunk count `CeilDiv(a, b)` is the least n with n·b ≥ a, i.e. `Math.ceil(a / b)`. |
| ChunkedUpload.PlanSizesCover | hooks/useChunkedUpload.ts:175-183 | The plan has ceil(size/chunkSize) chunks and their sizes sum to the file size. |
| ChunkedUpload.PlanSizesFull | hooks/useChunkedUpload.ts:179-183 | Every chunk except the last is exactly chunkSize bytes. |
| ChunkedUpload.PlanSizesLast | hooks/useChunkedUpload.ts:179-183 | The last chunk is size − (n−1)·chunkSize bytes, which is between 1 and chunkSize. |
| ChunkedUpload.TwoAndAHalfMiBPlan | hooks/useChunkedUpload.ts:22 | A 2.5 MiB file is planned as 1 MiB, 1 MiB and 0.5 MiB. |
| ChunkedUpload.ValidFilePlanCount | hooks/useChunkedUpload.ts:22-25 | A file that passes validation is planned as 1 to 100 chunks. |
| ChunkedUpload.ChunkPlan | hooks/useChunkedUpload.ts:176-183 | The planning loop (chunk i runs from i·chunkSize to min(i·chunkSize + chunkSize, size)) produces the reference plan, with ceil(size/chunkSize) sizes summing to size. |
| ChunkedUpload.SumUploadedBound | hooks/useChunkedUpload.ts:60-69 | The bytes of the chunks marked uploaded are at most the total of the planned sizes. |
| ChunkedUpload.SumUploadedAll | hooks/useChunkedUpload.ts:60-69 | When every chunk is marked uploaded, the uploaded bytes are the total of the planned sizes. |
| ChunkedUpload.SumUploadedNone | hooks/useChunkedUpload.ts:60-69 | When no chunk is marked uploaded, the uploaded bytes are 0. |
| ChunkedUpload.SumUploadedUpdate | hooks/useChunkedUpload.ts:66 | Changing one status moves the total by that chunk's size exactly when the change is into or out of `uploaded`. |
| ChunkedUpload.UploadedWithinFile | hooks/useChunkedUpload.ts:60-69 | Over the plan of a file, the uploaded bytes never exceed the file size. |
| ChunkedUpload.AllUploadedIsFileSize | hooks/useChunkedUpload.ts:283 | Over the plan of a file, once every chunk is uploaded the uploaded bytes equal the file size. |
| ChunkedUpload.RemainingExact | hooks/useChunkedUpload.ts:212-216 | The selection holds exactly the indices whose status is pending or failed, each once, strictly ascending. |
| ChunkedUpload.RemainingAllPending | hooks/useChunkedUpload.ts:186 | On a fresh plan (all pending) the selection is 0, 1, …, n−1. |
| ChunkedUpload.RetryFromChunkError | hooks/useChunkedUpload.ts:146-168 | A chunk upload fails only with a refused last attempt, a network error on the last attempt, or an abort. |
| ChunkedUpload.RetryFromSucceeds | hooks/useChunkedUpload.ts:137-170 | The retry policy succeeds iff some attempt within the budget is accepted and every earlier attempt got a non-2xx response or a network error. |
| ChunkedUpload.UploadChunkWithRetry | hooks/useChunkedUpload.ts:134-170 | The retry loop makes 1 to maxRetries+1 attempts. Every attempt but the last was retryable. It succeeds exactly on a 2xx response. An abort is rethrown at once. A retryable final attempt means the budget is spent, and the thrown error names the chunk and status. The wait before retry k is 250·k² ms. The result agrees with the reference policy. |
| ChunkedUpload.Workers | hooks/useChunkedUpload.ts:202-208 | The pool size is the requested concurrency clamped to [1, 3]: a concurrency above 3 gives 3, one below 1 gives 1, and one in range is kept. |
| ChunkedUpload.FirstFailureAppend | hooks/useChunkedUpload.ts:256 | Claiming another chunk keeps an already recorded error (`firstError ?? e`). Otherwise it records the new chunk's error, if any. |
| ChunkedUpload.FirstFailure | hooks/useChunkedUpload.ts:254-258 | The recorded error, when there is one, is a chunk error. |
| ChunkedUpload.AllPassNoFailures | hooks/useChunkedUpload.ts:254-258 | When every claimed chunk's upload succeeds, no worker retires for a failure. |
| ChunkedUpload.CleanRunAllUploaded | hooks/useChunkedUpload.ts:212-248 | Over a status array with no chunk in flight, claiming the whole pending-or-failed selection with every claim succeeding leaves every chunk uploaded. |
| ChunkedUpload.CleanPoolUploadsAll | hooks/useChunkedUpload.ts:227-265 | A pool run with no recorded chunk error claimed the whole selection and left every chunk uploaded. |
| ChunkedUpload.FirstFailureIsFirst | hooks/useChunkedUpload.ts:254-258 | No error is recorded iff every claimed chunk succeeded. A recorded error belongs to a claimed chunk that failed after only successes. |
| ChunkedUpload.ApplyClaimsAt | hooks/useChunkedUpload.ts:233-255 | After a run, a claimed chunk is `uploaded` or `failed` according to its retry outcome, and every other chunk keeps its status. |
| ChunkedUpload.ClaimedNeededUpload | hooks/useChunkedUpload.ts:212-231 | Every chunk a run claims from the front of the selection was pending or failed. |
| ChunkedUpload.UploadedStay | hooks/useChunkedUpload.ts:212-255 | A run leaves every chunk that was already uploaded marked uploaded. |
| ChunkedUpload.AbortOnlyLastAppend | hooks/useChunkedUpload.ts:228-231 | Claiming after a chunk that was not aborted keeps aborts confined to the last claim. |
| ChunkedUpload.AbortErrorIsLast | hooks/useChunkedUpload.ts:229 | When the recorded error is an abort, the abort came from the last claimed chunk. |
| ChunkedUpload.Uploader.constructor | hooks/useChunkedUpload.ts:28-45 | A new controller is idle, with no file, session, plan, signal, error or uploaded bytes. |
| ChunkedUpload.Uploader.SetChunkStatus | hooks/useChunkedUpload.ts:71-83 | Only position `index` of the status array changes, and it becomes `next`. Nothing changes when there is no plan. |
| ChunkedUpload.Uploader.ComputeUploadedBytes | hooks/useChunkedUpload.ts:60-69 | The loop returns the sum of the sizes of the chunks marked uploaded, or 0 without a plan. |
| ChunkedUpload.Uploader.RemainingIndices | hooks/useChunkedUpload.ts:212-216 | The selection loop returns the pending and failed indices, strictly ascending. |
| ChunkedUpload.Uploader.Cancel | hooks/useChunkedUpload.ts:100-106 | The phase becomes canceled and the signal fires and is dropped. The file, session id, plan, statuses, uploaded bytes and error are kept. |
| ChunkedUpload.Uploader.Reset | hooks/useChunkedUpload.ts:85-98 | Any signal fires: the run counts as aborted iff it was already aborted or a signal was live. The controller returns to idle with zero bytes, no error, no file, no session and no plan. |
| ChunkedUpload.Uploader.BuildChunkPlan | hooks/useChunkedUpload.ts:175-191 | A fresh status array of plan length with every chunk pending, and the sizes of the file's plan. Everything else is unchanged. |
| ChunkedUpload.Uploader.UploadClaimed | hooks/useChunkedUpload.ts:233-259 | The claimed chunk goes to `uploading`, then to `uploaded` or `failed` by its retry outcome. No other status changes. The byte total is recomputed. An abort means the user canceled. |
| ChunkedUpload.Uploader.ClaimNext | hooks/useChunkedUpload.ts:228-233 | The worker claims exactly the index under the cursor. The claims stay a prefix of the selection. The array gains that chunk's outcome. |
| ChunkedUpload.Uploader.RetireKeeps | hooks/useChunkedUpload.ts:228-229 | A worker may leave only when the cursor is drained or the signal has fired, and the pool invariant still holds. |
| ChunkedUpload.Uploader.Claim | hooks/useChunkedUpload.ts:228-258 | A live worker claims the next index. A failed chunk records the first error and retires that worker only. The pool invariant holds. |
| ChunkedUpload.Uploader.PoolStarts | hooks/useChunkedUpload.ts:224-225 | Before any step nothing is claimed, no error is recorded and every worker is live. |
| ChunkedUpload.Uploader.PoolEnds | hooks/useChunkedUpload.ts:264-265 | When every worker has left, the claims, the array and the recorded error are the run's result. Unless the user canceled or every worker failed, the whole selection was claimed. The signal has fired iff the last claimed chunk was aborted. |
| ChunkedUpload.Uploader.RunPool | hooks/useChunkedUpload.ts:220-269 | Each selected index is claimed at most once, in order. The array holds the claimed chunks' outcomes. The run throws the first recorded error. Failures are at most the pool size. With no cancel and a surviving worker, every selected index is claimed. The signal has fired iff the last claimed chunk was aborted, so nothing is claimed after the cancel. An AbortError implies a cancel, and a run that throws nothing leaves the signal live. |
| ChunkedUpload.Uploader.UploadSelected | hooks/useChunkedUpload.ts:202-265 | The pool runs over the pending and failed chunks with the clamped concurrency. An empty selection claims nothing. The run results are as in RunPool. |
| ChunkedUpload.Uploader.UploadRemainingChunks | hooks/useChunkedUpload.ts:193-270 | Without a file, session id, signal and plan, it throws "not ready" and changes nothing. Otherwise it gives the RunPool guarantees over the selection of the starting status array. A run that throws nothing was ready and leaves the signal live. |
| ChunkedUpload.Uploader.Settle | hooks/useChunkedUpload.ts:358-366 | An AbortError ends silently. Any other error moves to the error phase and is recorded. |
| ChunkedUpload.Uploader.Finalize | hooks/useChunkedUpload.ts:274-299 | It refuses ("nothing to finalize") without a session id, file, plan and signal, and refuses ("incomplete") unless every chunk is uploaded. Otherwise it enters finalizing and sends totalChunks equal to the plan length, with uploaded bytes equal to the file size. A non-2xx reply is a finalize failure. |
| ChunkedUpload.Uploader.FinalizeAndSettle | hooks/useChunkedUpload.ts:274-299 | It ends in done, error or canceled. Without a session id, file, plan or signal it ends in error with "nothing to finalize". With chunks still missing it ends in error with "incomplete". For a complete upload, the finalize reply decides: accepted ends done, a refusal ends in error with that HTTP status, a failed fetch ends in error as a transport failure, and an aborted fetch ends canceled with the error unchanged. Done means every chunk is uploaded and the uploaded bytes equal the file size. |
| ChunkedUpload.Uploader.UploadStage | hooks/useChunkedUpload.ts:339-340 | It enters the uploading phase and runs the pool with the default concurrency. A run that was not ready fails as "not ready" and claims nothing. Otherwise the outcome is the first recorded chunk error, or a pass. A pass leaves the uploader ready with every chunk uploaded. File, session, plan and error are kept. |
| ChunkedUpload.Uploader.UploadAndFinalize | hooks/useChunkedUpload.ts:339-342 | The uploading phase, the pool, finalize, then done. The claims come from the front of the selection, so chunks already uploaded are not sent again. When the first recorded chunk error is an abort, the run ends canceled with the error unchanged. Any other first chunk error ends in error with that error. A ready run with no chunk error has every chunk uploaded, and the finalize reply decides the end: accepted ends done, a refusal ends in error with that status, a failed fetch ends in a transport error, an aborted fetch ends canceled. A clean pool run never ends in "nothing to finalize". |
| ChunkedUpload.Uploader.Begin | hooks/useChunkedUpload.ts:303-319 | It clears the error, progress and plan, then validates. A rejected file leaves the phase at validating with no file kept. A valid file is kept, the phase becomes initializing and a fresh signal is created. |
| ChunkedUpload.Uploader.OpenSession | hooks/useChunkedUpload.ts:321-337 | An accepted init keeps the session id and builds a plan of pending chunks with zero bytes uploaded. A refused, failed or aborted init throws the matching error and builds no plan. |
| ChunkedUpload.Uploader.Start | hooks/useChunkedUpload.ts:301-370 | The run ends in done, error or canceled. A file that fails validation, a refused or failed init, a failed chunk or a failed finalize end in error with that error. An aborted init, or an abort that is the first recorded chunk error, ends canceled with no error. An init reply with an empty session id ends in error as "not ready" and sends no chunk. After a valid file, a good init and no chunk error, every chunk is uploaded and the finalize reply decides the end: accepted ends done, a refusal ends in error with that status, a failed fetch ends in a transport error, an aborted fetch ends canceled with no error. It never ends in "nothing to finalize". A fresh run claims chunks in index order. Done means every chunk is uploaded and the bytes equal the file size. |
| ChunkedUpload.Uploader.Resume | hooks/useChunkedUpload.ts:376-410 | A missing file or session id ends in error with the matching reason and sends nothing. Otherwise it runs the shared tail over only the pending and failed chunks. The file, session and plan are kept. An abort that is the first recorded chunk error ends canceled with no error. Any other first chunk error ends in error with that error. With a file, a session id and no chunk error, every chunk is uploaded and the finalize reply decides the end: accepted ends done, a refusal ends in error with that status, a failed fetch ends in a transport error, an aborted fetch ends canceled with no error. It never ends in "nothing to finalize". |
| ChunkedUpload.Uploader.RetryFailed | hooks/useChunkedUpload.ts:412-416 | It behaves as resume: every chunk sent was pending or failed, and every chunk that was uploaded stays uploaded. |
| Text.Trim | lib/csv.ts:9 | `String.prototype.trim`: the result has no leading or trailing whitespace and is no longer than the input. |
| Text.TrimIsSlice | lib/csv.ts:9 | The result is a slice of the input, and everything cut off at either end is whitespace. |
| Text.TrimEmptyIff | lib/csv.ts:45 | A value trims to the empty string iff it is all whitespace. |
| Text.TrimIdempotent | lib/csv.ts:45 | Trimming twice is trimming once. |
| Text.NatToStringRoundTrip | lib/csv.ts:9 | The decimal text of `idx + 1` in a `Column k` label reads back as that number. |
| Text.CanonicalDigits | app/api/upload/finalize/route.ts:10 | A digit string without a leading zero is the decimal text of its value. |
| Csv.SplitCsvLine | lib/csv.ts:73-86 | The character loop (an escaped `""`, quote toggling, comma splitting outside quotes) returns exactly the fields of the recursive reference definition `Fields`. |
| Csv.FieldsFrom | lib/csv.ts:84 | A split always yields at least one field. |
| Csv.FieldCount | lib/csv.ts:77-85 | The number of fields is one more than the number of commas outside quotes. |
| Csv.PlainRoundTrip | lib/csv.ts:73-86 | For a line with no `"`, joining its fields with `,` gives back the line. |
| Csv.QuotedRoundTrip | lib/csv.ts:79-81 | Non-empty quote-free fields, each wrapped in quotes and joined with commas, split back into the same fields, commas inside included. |
| Csv.EmptyQuotedField | lib/csv.ts:79 | `a,"",b` splits into `a`, a lone `"`, and `b`. An empty quoted field reads as an escaped quote. |
| Csv.Lines | lib/csv.ts:4 | The lines are the pieces between `\n` or `\r\n` breaks that are not empty. None is empty or holds a newline. |
| Csv.NormalizedColumns | lib/csv.ts:9 | One column per header field. Each is the trimmed name, or `Column k` (1-based) when the trimmed name is empty. None is empty or untrimmed. |
| Csv.HeaderHasColumns | lib/csv.ts:5-9 | Every text has at least one column, even an empty one. |
| Csv.NoColumnsNeverRaised | lib/csv.ts:58-60 | The "No columns found" issue can never be raised. |
| Csv.Distinct | lib/csv.ts:13-14 | The first occurrences of the names, in order: the same names with no repeats. |
| Csv.DistinctPrefix | lib/csv.ts:50-54 | The distinct values of a prefix are a prefix of the distinct values: first-appearance order. |
| Csv.DuplicateNamesIff | lib/csv.ts:12-14 | A name is reported as duplicate iff it occurs at two positions of the header. It is reported once. |
| Csv.DuplicateNamesEmptyIff | lib/csv.ts:14-15 | No duplicates are reported iff the header has no repeated name. |
| Csv.FindDuplicates | lib/csv.ts:12-14 | The counting loop over the `seen` map returns the duplicate names in first-appearance order. |
| Csv.DuplicateIssuesIff | lib/csv.ts:15-20 | A warning is raised iff some header name repeats. It is a single warning naming the first 1 to 5 duplicates, with the ellipsis flag set iff there are more than 5. |
| Csv.WarnDuplicates | lib/csv.ts:15-20 | It pushes that warning. |
| Csv.RowLookup | lib/csv.ts:29 | A row's value for a column is the field at that column's last position in the header, or `""` when the line is too short. |
| Csv.RowKeys | lib/csv.ts:29 | A row has a key for every column and no other key. |
| Csv.BuildRow | lib/csv.ts:28-29 | The row-filling loop builds that row. |
| Csv.RowCountIs | lib/csv.ts:24 | The number of rows is max(0, min(lines − 1, maxRows)). |
| Csv.DataRows | lib/csv.ts:22-31 | There is one row per counted line, and the first line is never a row. |
| Csv.RaggedIff | lib/csv.ts:24-26 | The bad-row count is at most the number of rows, and is positive iff some previewed row's field count differs from the column count. |
| Csv.BuildRows | lib/csv.ts:22-31 | The row loop builds the rows of lines 1…n from their fields and counts the rows whose width differs from the header. |
| Csv.RaggedIssuesIff | lib/csv.ts:33-38 | A mismatch warning is raised iff some previewed row has the wrong width. It reports between 1 and n bad rows of n. |
| Csv.NumberNotBoolean | lib/csv.ts:90-92 | No value reads as both a number and a boolean. |
| Csv.InferTypeCases | lib/csv.ts:88-95 | An empty sample is unknown. Otherwise the type is number iff every trimmed value matches `-?\d+(\.\d+)?`, boolean iff every value is true/false in any case, and string iff neither holds for all values. |
| Csv.DigitsInferNumber | tests/csv.test.ts:19-26 | A column of digit strings (`1`, `2`) is a number column. |
| Csv.TrueFalseInferBoolean | tests/csv.test.ts:19-26 | A column of `true`/`false` values is a boolean column. |
| Csv.WordInfersString | tests/csv.test.ts:19-26 | A column holding a lower-case word other than true/false (`hello`) is a string column. |
| Csv.BlankSplit | lib/csv.ts:45-49 | Blank values and non-blank trimmed values together account for every row. The non-blank ones are trimmed and not empty. |
| Csv.StatsShape | lib/csv.ts:49-55 | `emptyCount` is at most the row count. The example values are at most 3, distinct, trimmed, non-empty, and the first distinct non-blank values in order. |
| Csv.ExampleValues | lib/csv.ts:50-54 | The example loop (skip seen values, stop at 3) returns the first three distinct values. |
| Csv.SummarizeColumn | lib/csv.ts:44-55 | One column's type is inferred from its first 50 non-blank trimmed values, and its stats are as in StatsShape. |
| Csv.SummarizeColumns | lib/csv.ts:43-56 | The column loop fills the `types` and `columnStats` maps. |
| Csv.ColumnMapsSpec | lib/csv.ts:40-56 | Both maps have exactly the columns as keys, each mapped to its own type and stats. |
| Csv.ReadHeader | lib/csv.ts:4-9 | It yields the lines and the normalised header, with at least one column. |
| Csv.PreviewOfParts | lib/csv.ts:1-70 | A preview with those columns, rows, issues, maps and counts is the preview `PreviewOf` defines for the text. |
| Csv.ParseCsvPreview | lib/csv.ts:1-70 | The preview has the normalised columns, the rows of the first maxRows data lines, the duplicate warning followed by the mismatch warning, never the no-columns error, the type and stats maps, and `previewRows`/`previewColumns` equal to the row and column counts. |
| FinalizeRoute.ParseChunkIndexIff | app/api/upload/finalize/route.ts:7-12 | A name parses to n iff it is `chunk-` + one or more digits whose decimal value is n + `.bin`. Every other name gives no index. |
| FinalizeRoute.ChunkNameRoundTrip | app/api/upload/finalize/route.ts:7-12 | The canonical name of n parses back to n. |
| FinalizeRoute.ChunkNameCanonical | app/api/upload/finalize/route.ts:7-12 | A parsed name whose digits have no leading zero is the canonical name of its index. |
| FinalizeRoute.LeadingZeroAlias | app/api/upload/finalize/route.ts:8-10 | `chunk-0<n>.bin` also parses to n. |
| FinalizeRoute.IndexSetIff | app/api/upload/finalize/route.ts:38-43 | An index is in the set iff some listed name parses to it. Other names are skipped. |
| FinalizeRoute.CollectIndices | app/api/upload/finalize/route.ts:38-43 | The loop builds that set. |
| FinalizeRoute.LargestIndex | app/api/upload/finalize/route.ts:61 | `Math.max` over the indices: the largest one, or below zero when there is none. |
| FinalizeRoute.MissingBelow | app/api/upload/finalize/route.ts:48-49 | The missing list holds exactly the indices below the expected total that are absent, strictly ascending. |
| FinalizeRoute.MissingIndices | app/api/upload/finalize/route.ts:48-49 | The loop builds that list. |
| FinalizeRoute.FindGap | app/api/upload/finalize/route.ts:62-66 | The scan finds a gap iff some j in [0, max] is absent. |
| FinalizeRoute.ExpectedCompleteness | app/api/upload/finalize/route.ts:46-58 | With an expected total, finalize fails iff some index below it is absent. The error reports every listed file as received, the expected total, and the first 1 to 25 missing indices (all of them when there are fewer than 25). |
| FinalizeRoute.BestEffortCompleteness | app/api/upload/finalize/route.ts:59-67 | Without one, finalize fails iff some index below a present index is absent. It never reports anything else. |
| FinalizeRoute.CheckCompleteness | app/api/upload/finalize/route.ts:45-67 | The loops of both modes compute that decision. |
| FinalizeRoute.MissingTail | app/api/upload/finalize/route.ts:59-67 | Chunks 0…n−1 pass the best-effort check even when chunk n is missing. With n+1 expected, exactly [n] is reported. |
| FinalizeRoute.OnlyTopMissing | app/api/upload/finalize/route.ts:48-66 | Indices 0…n−1 have no gap, and only n is missing below n+1. |
| FinalizeRoute.NoneMissing | app/api/upload/finalize/route.ts:48-50 | When every index below n is present, nothing is missing. |
| FinalizeRoute.NoChunkNamesPass | app/api/upload/finalize/route.ts:59-67 | When no name parses, the best-effort check passes vacuously. |
| FinalizeRoute.ChunkNamesIndices | app/api/upload/finalize/route.ts:38-43 | The canonical names of 0…n−1 give exactly the indices below n. |
| FinalizeRoute.ConcatAppend | app/api/upload/finalize/route.ts:73 | Concatenating two lists of parts is concatenating their results. |
| FinalizeRoute.PayloadsAppend | app/api/upload/finalize/route.ts:69-72 | Reading two listings in sequence succeeds iff both succeed, and yields both payload lists in order. |
| FinalizeRoute.AssembledAppend | app/api/upload/finalize/route.ts:69-73 | The assembled bytes of a + b are those of a followed by those of b. |
| FinalizeRoute.AssembledOne | app/api/upload/finalize/route.ts:69-73 | A one-file listing assembles to that file's payload. |
| FinalizeRoute.ListingOrderMatters | app/api/upload/finalize/route.ts:69-73 | Payloads are concatenated in listing order, not index order: swapping two listed files changes the assembled bytes. |
| FinalizeRoute.NoPayloadsAfterFailure | app/api/upload/finalize/route.ts:70-72 | A failed read fails the whole assembly. |
| FinalizeRoute.AliasesBothAssembled | app/api/upload/finalize/route.ts:38-73 | `chunk-0.bin` and `chunk-00.bin` together satisfy an expected total of 1, and both payloads are concatenated. |
| FinalizeRoute.AssembleChunks | app/api/upload/finalize/route.ts:69-73 | The read loop assembles every listed file's payload in listing order, or fails when a read fails. |
| FinalizeRoute.NewlineCountPrefix | app/api/upload/finalize/route.ts:18-26 | A prefix has no more newline bytes than the whole buffer. |
| FinalizeRoute.NewlineCountStrict | app/api/upload/finalize/route.ts:18-26 | A prefix of a buffer that ends in `\n` has fewer newlines than the buffer. |
| FinalizeRoute.FirstLines | app/api/upload/finalize/route.ts:14-28 | The result is a prefix of the buffer. It is the whole buffer when there are fewer than k newlines (k at least 1). Otherwise it ends right after the k-th `\n`. |
| FinalizeRoute.FirstLinesUnique | app/api/upload/finalize/route.ts:14-28 | Only one prefix fits that description, so the preview bytes are determined by the buffer. |
| FinalizeRoute.PreviewDetermined | app/api/upload/finalize/route.ts:76-78 | A buffer has exactly one preview. |
| FinalizeRoute.BuildPreview | app/api/upload/finalize/route.ts:76-78 | The preview is the CSV preview, at most 100 rows, of the decoded first 200 lines of the assembled bytes. It has at least one column. |
| FinalizeRoute.Post | app/api/upload/finalize/route.ts:30-81 | A missing session id is rejected, then an empty listing, both before any read. A failed completeness check rejects with its error. Otherwise the assembled bytes are written, and the preview is the one of exactly those bytes. A throwing storage call fails the request. |
| FinalizeRoute.Get | app/api/upload/finalize/route.ts:84-102 | A missing session id is rejected. A failed or empty listing gives "No chunks found". Otherwise the preview is rebuilt from the chunks with no completeness check, and it is the preview of their assembled bytes. |
| SessionsRoute.ChunkCountZeroIff | app/api/upload/sessions/route.ts:47-48 | The count is zero iff no file starts with `chunk-` and ends with `.bin`. |
| SessionsRoute.ChunkFileWiderThanChunkName | app/api/upload/sessions/route.ts:47 | Every name the finalize route parses is counted as a chunk here, but `chunk-x.bin` is counted without being parseable. |
| SessionsRoute.SessionOfIff | app/api/upload/sessions/route.ts:34-54 | An entry is a session iff it is a stat-able directory that can be read and holds `assembled.csv` or a chunk file. Its id is the entry name. `hasAssembled` holds iff `assembled.csv` is listed, and the chunk count is as above. The time is the `assembled.csv` mtime when that file is present and stat-able, otherwise the directory's. |
| SessionsRoute.CollectedIff | app/api/upload/sessions/route.ts:33-55 | The collected list holds exactly the sessions of the entries. |
| SessionsRoute.InsertNewestFirst | app/api/upload/sessions/route.ts:57 | Inserting into a newest-first list keeps it newest first. |
| SessionsRoute.InsertMultiset | app/api/upload/sessions/route.ts:57 | Inserting adds exactly that session. |
| SessionsRoute.SortNewestFirstOrdered | app/api/upload/sessions/route.ts:57 | The sort orders by `updatedAtMs`, newest first. |
| SessionsRoute.SortNewestFirstPermutes | app/api/upload/sessions/route.ts:57 | The sort is a permutation of the collected sessions. |
| SessionsRoute.InsertKeepsOrder | app/api/upload/sessions/route.ts:57 | Inserting keeps the relative order of the sessions that share a timestamp, with the new one last. |
| SessionsRoute.SortNewestFirstStable | app/api/upload/sessions/route.ts:57 | The sort is stable: sessions with equal timestamps keep the directory-listing order. |
| SessionsRoute.ListSessions | app/api/upload/sessions/route.ts:23-59 | An unreadable data directory gives an empty list. Otherwise the loop (skipping non-directories, unreadable directories and directories without session files) yields the collected sessions sorted newest first. |
| SessionsRoute.ListingSpec | app/api/upload/sessions/route.ts:23-59 | The listing is newest first and holds a session iff some entry stands for it. |

## Left out

- The React rendering and state mirroring (`setChunks`, `setProgress`, `setChunkIndex`, `setTotalBytes`, `setSessionId`) are not modelled. Progress is the integer `uploadedBytes`, not the float ratio `sum / file.size`.
- Error and hint strings (`errorHint`, the `Error` messages) are not modelled. Errors are the constructors of `Failure` and `FinalizeError`. So `start`'s stale `errorHint` check and its hint text are left out.
- `localStorage.setItem("lastSessionId", …)` is left out as browser storage.
- Real parallelism and timers are not modelled. Workers are one sequential interleaving, and each chunk upload (retries included) is atomic in it. So when two uploads overlap, "the first recorded error" is the error of the earliest-claimed failing chunk, not the earliest to finish. The backoff delays are recorded, not waited for.
- File slicing (`file.slice(...).arrayBuffer()`) and the request bodies and headers are left out. A chunk upload is the reply sequence `net(i, ·)`. The read at hooks/useChunkedUpload.ts:238 sits outside the worker's `try`. So a read that rejects ends that worker with the chunk still `uploading`, and no error is recorded for it. Resume selects only pending and failed chunks, so it never sends that chunk again, and every later finalize reports the upload incomplete. The model has no failing read, so it does not show this path.
- `cancel` called while no request is in flight is not modelled. In the source the workers then throw AbortError before claiming, `Promise.allSettled` swallows it, and the next `finalize` throws "Nothing to finalize" because the signal is gone, so the run ends in error. Only a cancel during a request is modelled, as that request's aborted reply.
- A cancel that aborts several in-flight chunk uploads at once is not modelled. In the interleaving, only the claimed chunk whose reply is the abort is failed. The other workers then retire and leave their chunks pending, where the source marks each aborted chunk failed. Resume sends both kinds again.
- ChunkedUpload.Workers: the clamp (above 3 gives 3, below 1 gives 1) is stated for an integer concurrency. The hook always passes 3, so a fractional or `NaN` option is not modelled.
- The `/api/upload/init` and `/api/upload/chunk` routes are not part of this model. They appear only as reply inputs.
- lib/storage is not part of this model. `listChunks`'s order, filtering and possible sorting are therefore unknown, and the listing is an input. The write of the assembled file is the `written` field of `PostOk`, and a failing write is not modelled.
- UTF-8 decoding (`toString("utf8")`) is the parameter `decode`. Characters are `char` values, not UTF-16 code units.
- `Number(m[1])` is the exact decimal value of the digits. Float rounding of digit strings beyond 2^53 is not modelled.
- `totalChunks` in the finalize body is an optional integer. A non-number or infinite value is absent, and a fractional value is not modelled. A body that fails to parse as JSON is an absent body. A `sessionId` that is not a string is not modelled.
- The JavaScript regex engine is not modelled. The patterns `^chunk-(\d+)\.bin$`, `\.csv$`/i, `^-?\d+(\.\d+)?$` and `^(true|false)$`/i are written out as predicates over ASCII characters.
- Object-key effects of `Record<string, string>` (`__proto__` and other inherited keys) are not modelled. Rows and the type and stats records are maps.
- Issue severities and message strings are left out. Issues are constructors carrying their counts, and the severity is `SeverityOf`.
- The sort in the sessions route is modelled as a function (stable insertion sort by descending `updatedAtMs`), since the source calls `Array.prototype.sort`, which is stable. Fractional `mtimeMs` values are integers in the model.
- The `""` sequence is honoured as an escaped quote even as a whole field: `a,"",b` gives a `"` field, not an empty one. This is not the quoting of section 2 of RFC 4180, and is stated by Csv.EmptyQuotedField as the behaviour of the code. Multi-line quoted fields are likewise not supported.
- The finalize route concatenates the chunk files in the order the listing gives them, not by chunk index, and the model keeps that order (ListingOrderMatters). After a chunk failure, only the worker whose chunk failed stops; the other workers keep claiming chunks (Claim).
