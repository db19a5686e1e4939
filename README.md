# DOCX-to-PDF batch conversion pipeline: a Dafny model of its core

The system accepts a ZIP archive of Word documents over HTTP. It converts
every document to PDF through an external converter (Gotenberg) and records
the result as a new ZIP archive. The work runs in three steps, linked by two
Bull queues and recorded in two PostgreSQL tables, `jobs` and `files`:

1. **Upload** (`fileUpload`):
   - answers 400 when no file was stored;
   - counts the eligible entries of the archive;
   - inserts the job as `PENDING` and queues a `PROCESS_ZIP` item;
   - swallows any failure of those steps;
   - always answers 202 with the job id, the count and `"Accepted"`.
2. **Expansion** (the `jobQueue` handler):
   - derives the job's `files` and `output` directories from the upload path and extracts the archive;
   - for each eligible entry, inserts a `PENDING` `files` row and queues a conversion item;
   - marks the job `UNZIPPED`;
   - on any failure, marks the job `FAILED` and rethrows.
3. **Conversion** (the `fileQueue` handler):
   - sends the document to the converter and writes the PDF under the name with `.docx` replaced by `.pdf`;
   - marks the row `COMPLETED` with that path;
   - when no file of the job is left that is not `COMPLETED`, calls `finalizeJob`;
   - on failure, marks the row `FAILED` and rethrows.
   - `finalizeJob` zips the output directory into `result.zip` in the job root and marks the job `COMPLETED` with that path, or `FAILED_ZIPPING` if that fails. It throws only if its own `FAILED_ZIPPING` update throws.

**How the model is laid out**
- The database is a class `Store.Store` whose `jobs` and `files` maps are reassigned by one method per SQL statement.
- Each queue is a class `Queues.Queue` whose `items` sequence grows by `Add`.
- Each handler is a method that takes these objects.
- Whatever the outside world decides enters as a parameter:
  - whether the archive can be read, and its entries in enumeration order;
  - which database or queue call throws;
  - whether the converter succeeds;
  - whether zipping succeeds.
- Paths are normalised absolute segment lists, and `Paths.Join` follows Node's `path.join` on them.

**Each handler is proved against a specification function.**
- The expansion loop (`Worker.ExpandEntries`) matches the step function `Worker.ScanUpTo`. `Worker.ScanClosedForm` solves that function in closed form: the rows written, the items queued and the error for a fault at the k-th eligible entry.
- The conversion handler matches `Worker.FilesAfterConversion` and `Worker.JobsAfterFinalize`.
- The two are composed in `Worker.SequentialFinalize` and `Worker.ExpansionThenConversions`.

**Where the code departs from a batch converter that completes a batch with its converted documents, the model follows the code**
- Finalisation runs only when the count of the job's files whose status is not `COMPLETED` is zero. So a single `FAILED` conversion keeps the job `UNZIPPED` forever. The job never completes with the documents that did convert.
- A job with no eligible entries stays `UNZIPPED`.
- `FAILED` is not a final job status. When the expansion handler throws, the rows and items it already wrote stay in place, and nothing checks the job's status before finalising. If a row insert or the `UNZIPPED` update throws, and every item already queued then converts and zipping succeeds, the job goes from `FAILED` to `COMPLETED` (`Worker.FailedExpansionStillFinalizes`). If an enqueue throws instead, the row inserted just before it never gets an item, so the job stays `FAILED` (`Worker.EnqueueFailureStrandsJob`).
- There is no atomic claim before `finalizeJob`: nothing stops two conversions from both calling it.
- The failure status of finalisation is `FAILED_ZIPPING`.
- A conversion can hang. The converter request sets no timeout, and writing the PDF waits only for the output file's `finish` or `error` event. `pipe` does not pass on an error from the response stream. So a conversion whose request or response stream never settles never settles itself, and its row stays `PENDING`.
- When the pending-count query throws after the `COMPLETED` update, the row is marked `FAILED` but keeps its `output_path`.
- The PDF name replaces the first `.docx` in the entry name, not the extension: `a.docx.docx` becomes `a.pdf.docx`.

## Model

| member | source | states |
|---|---|---|
| Entries.EligibleIff | workers/index.js:50-53 | an entry passes the filter iff it is not a directory, is not under `__MACOSX/`, ends in `.docx` and its last path segment does not start with `._` (the `split("/").pop()` test restated without `split`) |
| Entries.EligiblesMembers | workers/index.js:49-53 | the filtered sequence contains an entry iff the archive has it and it is eligible |
| Entries.EligiblesAppend | workers/index.js:49-53 | filtering distributes over concatenation: it is an order-preserving filter |
| Entries.EligiblesPrefix | workers/index.js:49-79 | the eligible entries seen after scanning a prefix are a prefix of all eligible entries |
| Entries.EligiblesUpToPrefix | workers/index.js:49-53 | scanning the first n entries one at a time collects exactly the eligible entries of that prefix |
| Entries.EligiblesUpToAll | api/controller/fileController.js:20-31 | scanning every entry collects exactly the eligible ones |
| Strings.Split | workers/index.js:52 | `split` yields at least one part and no part contains the separator |
| Strings.SplitGlue | workers/index.js:52 | joining the parts of a split with the separator gives back the string |
| Strings.LastPartIsLastSegment | workers/index.js:52 | `split("/").pop()` is the suffix after the last separator and contains no separator |
| Strings.ReplaceFirstAbsent | workers/index.js:114 | `replace` leaves a string without the pattern unchanged |
| Strings.ReplaceFirstAt | workers/index.js:114 | `replace` rewrites the first occurrence of the pattern and nothing else |
| Paths.Resolve | workers/index.js:35-38 | resolving segments against a normal path gives a normal path |
| Paths.ResolveStaysUnder | workers/index.js:55 | resolving `..`-free segments never leaves the base directory |
| Paths.JoinUnder | workers/index.js:55 | `path.join(filesDir, name)` of a name without `..` segments lies under `filesDir`, and equals `filesDir` plus the name's segments when those are plain |
| Paths.JoinSegment | workers/index.js:35-38 | joining one plain segment appends it, and joining `..` is the parent |
| Paths.Dirname | workers/index.js:34 | the parent of a normal path is normal |
| Worker.JobLayout | workers/index.js:34-38 | the job root is the grandparent of the upload; `files` and `output` are its children; the result archive derived from `output` (lines 158-159) is `result.zip` in that same root |
| Worker.PdfNameOfDocx | workers/index.js:114 | for a name whose only `.docx` is its extension, the PDF name swaps that extension for `.pdf` |
| Worker.PdfNameRewritesFirstOccurrence | workers/index.js:114 | for any name, the first occurrence of `.docx` becomes `.pdf` and the text before and after it is kept, whether or not a later `.docx` follows |
| Worker.DoubleExtensionKeepsDocx | workers/index.js:114 | `a.docx.docx` becomes `a.pdf.docx`, so the output still ends in `.docx` |
| Worker.DottedStemKeepsDocx | workers/index.js:114 | dots before the first `.docx` do not matter: `v1.2.docx.docx` becomes `v1.2.pdf.docx` |
| Worker.NewRowsShape | workers/index.js:57-67 | the rows inserted for n eligible entries have exactly the serial ids first..first+n-1; row first+i is `PENDING` for the job with the i-th entry's name |
| Worker.NewItemsShape | workers/index.js:69-75 | the i-th queued item carries row first+i, the job id, the extracted path `path.join(filesDir, name)`, the output directory and the entry name |
| Worker.RowsMatchItems | workers/index.js:57-75 | the rows and items pair off: distinct item ids that are exactly the inserted row keys, and every item's row is `PENDING` for its job with its name |
| Worker.LoopError | workers/index.js:62-75 | the loop throws iff the insert or the enqueue fails at an eligible entry that exists |
| Worker.RowsWritten | workers/index.js:57-67 | the rows inserted are at most the eligible entries, and all of them unless the loop throws |
| Worker.ItemsQueued | workers/index.js:69-79 | the items queued are at most the rows inserted and at most one fewer (an enqueue that throws after its insert), and all of them unless the loop throws |
| Worker.ScanStuck | workers/index.js:87-93 | once the loop has thrown, later entries change nothing |
| Worker.ScanClosedForm | workers/index.js:49-79 | scanning the entries with a fault at the k-th eligible entry writes the rows of the eligible entries up to the failing insert, queues the items up to the failing call, counts those, and throws the failing call's error |
| Worker.ExpandEntries | workers/index.js:49-79 | the loop leaves the `files` table, the serial, the file queue, the count and the error equal to the step function applied to every entry; `jobs` is untouched |
| Worker.ProcessJob | workers/index.js:26-95 | an unreadable archive fails the job and writes nothing else; otherwise the rows, serial, items and count equal the closed form over the eligible entries; the handler resolves iff nothing fails, and otherwise rethrows the failing insert's or enqueue's error, or a store error when the `UNZIPPED` update fails; the job becomes `UNZIPPED` on success and `FAILED` otherwise |
| Worker.FinalizeJob | workers/index.js:156-178 | the job becomes `COMPLETED` with `result.zip` beside the output directory when zipping succeeds, otherwise `FAILED_ZIPPING`; `files` is untouched |
| Worker.ProcessFile | workers/index.js:97-151 | the `files` table follows the conversion outcome; `finalizeJob` runs iff the conversion succeeded and the count of not-completed files of the job is then zero; the handler resolves iff the conversion path completed, and otherwise rethrows the converter's error or, when the `COMPLETED` update or the count query fails, a store error |
| Worker.ConversionRowEffect | workers/index.js:130-148 | only the item's row changes; it is `COMPLETED` iff the conversion path succeeded; it holds the PDF path after success or after a failed count query, and keeps its old path otherwise |
| Worker.FinalizeIff | workers/index.js:136-142 | `finalizeJob` is called iff the conversion succeeded and every other file of the job is already `COMPLETED`; a `FAILED` sibling blocks it |
| Worker.FinalizedResultPath | workers/index.js:156-176 | after finalising, the job is `COMPLETED` with `result.zip` in the job root, or `FAILED_ZIPPING` with its old output path |
| Worker.NotCompletedAfterRun | workers/index.js:130-148 | a successful conversion removes its file from the not-completed set; a failed one keeps it |
| Worker.SequentialFinalize | workers/index.js:97-151 | converting distinct pending files of a job one after another calls `finalizeJob` once if they are all of its pending files and all succeed, and never otherwise |
| Worker.ExpansionThenConversions | workers/index.js:26-151 | after a fault-free expansion, converting every queued item once in any order calls `finalizeJob` exactly once iff the archive had an eligible entry and every conversion succeeded |
| Worker.PendingAfterExpansion | workers/index.js:57-67 | right after expansion, the job's not-completed files are exactly the rows just inserted |
| Worker.FailedExpansionStillFinalizes | workers/index.js:62-93 | after an expansion whose row insert or final `UNZIPPED` update throws, which leaves the job `FAILED`, converting every queued item once in any order calls `finalizeJob` exactly once iff some item was queued and every conversion succeeded, and that call sets the job `COMPLETED` when zipping succeeds (lines 136-141, 165-168) |
| Worker.EnqueueFailureStrandsJob | workers/index.js:62-93 | after an expansion whose k-th enqueue throws, converting every queued item once in any order never calls `finalizeJob`, because row k stays `PENDING` |
| Worker.StrandedRow | workers/index.js:62-75 | after the k-th enqueue throws, every queued item names a not-completed file of the job, and row k is not completed and named by no item |
| Store.NotCompletedEmpty | workers/index.js:136-140 | the pending count is zero iff every file of the job is `COMPLETED` |
| Store.NotCompletedAfterOutput | workers/index.js:130-133 | marking a file `COMPLETED` removes it, and only it, from the count |
| Store.NotCompletedAfterFailure | workers/index.js:145-148 | marking a file of the job `FAILED` keeps it in the count |
| Store.Store.NotCompletedCount | workers/index.js:136-140 | the count query returns zero iff every file of the job is `COMPLETED` |
| Store.Store.InsertJob | api/controller/fileController.js:13-14 | the job row is inserted as `PENDING` with the upload path iff its id is new; a duplicate is refused and nothing changes |
| Store.Store.InsertFile | workers/index.js:57-67 | the file row is inserted as `PENDING` under the next serial id, which was unused, and the serial advances |
| Store.Store.SetJobStatus | workers/index.js:80-83 | the job's status is updated; a missing id changes nothing |
| Store.Store.SetJobResult | workers/index.js:165-168 | the job becomes `COMPLETED` with the result path |
| Store.Store.SetFileStatus | workers/index.js:145-148 | the file's status is updated; a missing id changes nothing |
| Store.Store.SetFileOutput | workers/index.js:130-133 | the file becomes `COMPLETED` with its output path |
| Queues.Queue.Add | workers/index.js:69-75 | the item is appended at the end of the queue |
| Upload.CountEligible | api/controller/fileController.js:15-31 | the count is the number of eligible entries, the same filter the expansion worker applies |
| Upload.FileUpload | api/controller/fileController.js:5-48 | no file: 400 with the error message and nothing written; otherwise 202 with the job id, the eligible count (0 when the archive cannot be read) and `"Accepted"`; the job is inserted iff the archive reads, the insert does not fail and the id is new; the `PROCESS_ZIP` item is queued iff the insert succeeded and the enqueue does not fail |

## Left out

- The converter call (Gotenberg over HTTP), reading and writing files, and building the result archive are left out. Their success or failure is a parameter; the contents of the PDFs and of `result.zip` are not modelled.
- AdmZip is left out. An archive is its entry list in enumeration order, or `None` when it cannot be opened or extracted. Directory creation (`mkdirSync`) is assumed to succeed.
- Bull's delivery, retries, Redis and concurrency are left out. Handlers run one at a time, so the race in which two conversions both see a zero count and both finalise is not modelled; `Worker.SequentialFinalize` covers sequential runs only.
- Express, multer and the UUID middleware are left out. The request carries the job id and the stored upload path.
- Logging is left out, and the catch path's own `UPDATE ... FAILED` is assumed to succeed. A second-level failure there would rethrow a different error.
- Foreign keys and SQL types are left out. `jobs` is keyed by id, the `files` serial is a counter, and inserting a row for an unknown job id succeeds.
- Paths are modelled as absolute, normalised segment lists. Relative upload paths, the process's working directory, and `..` entries that climb above the root are not modelled.
- Worker.ProcessFile: a conversion whose converter request or response stream never settles is not modelled. The request at workers/index.js lines 105-112 has no timeout. The wait at lines 125-128 listens only to the output file, and `pipe` does not pass on a response-stream error to it. Such a run leaves its row `PENDING` and the job unfinished. The model treats it as a handler run that does not happen: `ConversionRun` has only outcomes that settle.
- Worker.FinalizeJob: the `FAILED_ZIPPING` update in its catch block (workers/index.js lines 173-176) is assumed to succeed. If it throws, the error leaves `finalizeJob` and reaches the conversion handler's catch block (lines 143-149). That block marks the just-converted file `FAILED` and rethrows, so `Worker.ProcessFile` would fail instead of resolving.
- Worker.ProcessFile: the PDF's parent directory, created when an entry name has subdirectories, is not modelled beyond the path it yields.
- `api/config/db.js`, `api/config/redis.js` and `api/index.js` (connection setup and routing) are not part of this model.
