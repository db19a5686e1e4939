/**
 * The queue worker: the `jobQueue` handler that expands an uploaded archive
 * into one file row and one conversion item per eligible entry, the
 * `fileQueue` handler that records one conversion's outcome and checks
 * whether the job is done, and `finalizeJob`, which records the result archive.
 *
 * The archive codec, the converter's HTTP call and the file system are
 * parameters: the archive is its entry list (`None` when it cannot be opened),
 * and each step that can throw takes a fault argument saying whether it does.
 */
module Worker {
  import opened Wrappers
  import opened Strings
  import opened Paths
  import opened Entries
  import opened Store
  import opened Queues

  // ---------------------------------------------------------------------------
  // Directory layout of one job

  /** The job's root: the parent of the directory holding the upload. */
  function JobRoot(uploadPath: Path): Path {
    Join(Dirname(uploadPath), "..")
  }

  /** Where the archive is extracted. */
  function FilesDir(uploadPath: Path): Path {
    Join(JobRoot(uploadPath), "files")
  }

  /** Where converted documents are written. */
  function OutputDir(uploadPath: Path): Path {
    Join(JobRoot(uploadPath), "output")
  }

  /** The result archive `finalizeJob` writes, beside the output directory. */
  function ResultZip(outputDir: Path): Path {
    Join(Join(outputDir, ".."), "result.zip")
  }

  /**
   * `files` and `output` are siblings under the job root (the grandparent of
   * the upload), and the result archive derived from the output directory
   * lands in that same job root.
   */
  lemma JobLayout(uploadPath: Path)
    ensures JobRoot(uploadPath) == Dirname(Dirname(uploadPath))
    ensures FilesDir(uploadPath) == JobRoot(uploadPath) + ["files"]
    ensures OutputDir(uploadPath) == JobRoot(uploadPath) + ["output"]
    ensures ResultZip(OutputDir(uploadPath)) == JobRoot(uploadPath) + ["result.zip"]
  {
    var root := JobRoot(uploadPath);
    JoinSegment(Dirname(uploadPath), "..");
    FilesAndOutputUnder(root);
    ResultZipBeside(root);
  }

  /** Both working directories are direct children of the job root. */
  lemma FilesAndOutputUnder(root: Path)
    ensures Join(root, "files") == root + ["files"]
    ensures Join(root, "output") == root + ["output"]
  {
    JoinSegment(root, "files");
    JoinSegment(root, "output");
  }

  /** The result archive sits next to `output`, in the job root. */
  lemma ResultZipBeside(root: Path)
    ensures ResultZip(Join(root, "output")) == root + ["result.zip"]
  {
    JoinSegment(root, "output");
    JoinSegment(root + ["output"], "..");
    assert Dirname(root + ["output"]) == root;
    JoinSegment(root, "result.zip");
  }

  // ---------------------------------------------------------------------------
  // Name of the converted document

  const TargetExtension: string := ".pdf"

  /** `fileName.replace(".docx", ".pdf")`: the FIRST `.docx` becomes `.pdf`. */
  function PdfName(fileName: string): string {
    ReplaceFirst(fileName, SourceExtension, TargetExtension)
  }

  /** When `.docx` occurs only as the extension, the extension becomes `.pdf`. */
  lemma PdfNameOfDocx(fileName: string)
    requires EndsWith(fileName, SourceExtension)
    requires forall k: nat :: OccursAt(fileName, SourceExtension, k) ==> k == |fileName| - |SourceExtension|
    ensures PdfName(fileName) == fileName[..|fileName| - |SourceExtension|] + TargetExtension
    ensures EndsWith(PdfName(fileName), TargetExtension)
  {
    var k := |fileName| - |SourceExtension|;
    assert OccursAt(fileName, SourceExtension, k);
    ReplaceFirstAt(fileName, SourceExtension, TargetExtension, k);
    assert fileName[k + |SourceExtension|..] == [];
  }

  /**
   * For any name, the first `.docx` is rewritten and everything around it is
   * kept, even when the extension comes later: `a.docx.docx` becomes `a.pdf.docx`.
   */
  lemma PdfNameRewritesFirstOccurrence(stem: string, rest: string)
    requires forall j: nat :: j < |stem| ==> !OccursAt(stem + SourceExtension + rest, SourceExtension, j)
    ensures PdfName(stem + SourceExtension + rest) == stem + TargetExtension + rest
  {
    var s := stem + SourceExtension + rest;
    var k := |stem|;
    assert s[k..k + |SourceExtension|] == SourceExtension;
    ReplaceFirstAt(s, SourceExtension, TargetExtension, k);
    assert s[..k] == stem;
    assert s[k + |SourceExtension|..] == rest;
  }

  lemma DoubleExtensionKeepsDocx()
    ensures PdfName("a.docx.docx") == "a.pdf.docx"
  {
    var s := "a" + SourceExtension + ".docx";
    assert "a" + SourceExtension == "a.docx";
    assert s == "a.docx.docx";
    assert !OccursAt(s, SourceExtension, 0) by {
      assert s[0] != SourceExtension[0];
    }
    PdfNameRewritesFirstOccurrence("a", ".docx");
    assert "a" + TargetExtension == "a.pdf";
    assert "a" + TargetExtension + ".docx" == "a.pdf.docx";
  }

  /** A dot in the stem does not matter: `v1.2.docx.docx` becomes `v1.2.pdf.docx`. */
  lemma DottedStemKeepsDocx()
    ensures PdfName("v1.2.docx.docx") == "v1.2.pdf.docx"
  {
    var s := "v1.2" + SourceExtension + ".docx";
    assert "v1.2" + SourceExtension == "v1.2.docx";
    assert s == "v1.2.docx.docx";
    forall j: nat | j < 4 ensures !OccursAt(s, SourceExtension, j) {
      assert s[j] == '.' ==> s[j + 1] != SourceExtension[1];
      assert s[j..j + |SourceExtension|][0] == s[j];
      assert s[j..j + |SourceExtension|][1] == s[j + 1];
    }
    PdfNameRewritesFirstOccurrence("v1.2", ".docx");
    assert "v1.2" + TargetExtension == "v1.2.pdf";
    assert "v1.2" + TargetExtension + ".docx" == "v1.2.pdf.docx";
  }


  // ---------------------------------------------------------------------------
  // Expansion (`jobQueue.process`)

  /** Which store or queue call of an expansion throws, if any. */
  datatype ExpandFault =
    | NoFault
    | InsertFails(at: nat)    // the row insert for the at-th eligible entry throws
    | EnqueueFails(at: nat)   // the queue add for the at-th eligible entry throws
    | UnzippedUpdateFails     // the final `UNZIPPED` update throws

  /** Whether the fault fires when the archive has `n` eligible entries. */
  predicate ExpansionFails(fault: ExpandFault, n: nat) {
    match fault
    case NoFault => false
    case InsertFails(at) => at < n
    case EnqueueFails(at) => at < n
    case UnzippedUpdateFails => true
  }

  /** How many file rows an expansion inserts before its fault fires. */
  function RowsWritten(fault: ExpandFault, n: nat): (rows: nat)
    ensures rows <= n
    ensures !ExpansionFails(fault, n) || fault.UnzippedUpdateFails? ==> rows == n
  {
    match fault
    case InsertFails(at) => if at < n then at else n
    case EnqueueFails(at) => if at < n then at + 1 else n
    case _ => n
  }

  /** How many conversion items an expansion enqueues before its fault fires. */
  function ItemsQueued(fault: ExpandFault, n: nat): (queued: nat)
    ensures queued <= RowsWritten(fault, n)
    ensures RowsWritten(fault, n) - queued <= 1
    ensures !ExpansionFails(fault, n) || fault.UnzippedUpdateFails? ==> queued == n
  {
    match fault
    case InsertFails(at) => if at < n then at else n
    case EnqueueFails(at) => if at < n then at else n
    case _ => n
  }

  /** The file rows inserted for `eligible`, with ids counted up from `first`. */
  function NewRows(jobId: JobId, eligible: seq<Entry>, first: FileId): map<FileId, FileRow>
    decreases |eligible|
  {
    if |eligible| == 0 then map[]
    else
      var n := |eligible| - 1;
      NewRows(jobId, eligible[..n], first)[first + n := FileRow(jobId, FileStatus.Pending, eligible[n].name, None)]
  }

  /** Row `first + i` holds the i-th eligible entry's name, and there are no other rows. */
  lemma {:induction false} NewRowsShape(jobId: JobId, eligible: seq<Entry>, first: FileId)
    ensures forall id :: id in NewRows(jobId, eligible, first) <==> first <= id < first + |eligible|
    ensures forall i :: 0 <= i < |eligible| ==>
      NewRows(jobId, eligible, first)[first + i] == FileRow(jobId, FileStatus.Pending, eligible[i].name, None)
    ensures |NewRows(jobId, eligible, first)| == |eligible|
    decreases |eligible|
  {
    if |eligible| > 0 {
      var n := |eligible| - 1;
      NewRowsShape(jobId, eligible[..n], first);
      assert first + n !in NewRows(jobId, eligible[..n], first);
    }
  }

  /** Rows added above every existing key keep all keys below the next serial value. */
  lemma RowsBelow(table: map<FileId, FileRow>, jobId: JobId, done: seq<Entry>, first: FileId)
    requires forall id :: id in table ==> id < first
    ensures forall id :: id in table + NewRows(jobId, done, first) ==> id < first + |done|
  {
    NewRowsShape(jobId, done, first);
  }

  /** The item `jobQueue.process` enqueues for an eligible entry whose row got id `id`. */
  function ItemFor(id: FileId, jobId: JobId, filesDir: Path, outputDir: Path, e: Entry): FileItem {
    FileItem(id, jobId, Join(filesDir, e.name), outputDir, e.name)
  }

  /** The conversion items enqueued for `eligible`, one per row, in the same order. */
  function NewItems(jobId: JobId, filesDir: Path, outputDir: Path, eligible: seq<Entry>, first: FileId): (items: seq<FileItem>)
    ensures |items| == |eligible|
    decreases |eligible|
  {
    if |eligible| == 0 then []
    else
      var n := |eligible| - 1;
      NewItems(jobId, filesDir, outputDir, eligible[..n], first) +
        [ItemFor(first + n, jobId, filesDir, outputDir, eligible[n])]
  }

  /** The i-th item carries row `first + i`, the job id, and the i-th entry's name and extracted path. */
  lemma {:induction false} NewItemsShape(jobId: JobId, filesDir: Path, outputDir: Path, eligible: seq<Entry>, first: FileId)
    ensures forall i :: 0 <= i < |eligible| ==>
      NewItems(jobId, filesDir, outputDir, eligible, first)[i] ==
        ItemFor(first + i, jobId, filesDir, outputDir, eligible[i])
    decreases |eligible|
  {
    if |eligible| > 0 {
      var n := |eligible| - 1;
      NewItemsShape(jobId, filesDir, outputDir, eligible[..n], first);
    }
  }

  lemma NewRowsSnoc(jobId: JobId, done: seq<Entry>, e: Entry, first: FileId)
    ensures NewRows(jobId, done + [e], first) ==
      NewRows(jobId, done, first)[first + |done| := FileRow(jobId, FileStatus.Pending, e.name, None)]
  {
    assert (done + [e])[..|done|] == done;
  }

  lemma RowsAfterInsert(table: map<FileId, FileRow>, jobId: JobId, done: seq<Entry>, e: Entry, first: FileId)
    ensures (table + NewRows(jobId, done, first))[first + |done| := FileRow(jobId, FileStatus.Pending, e.name, None)] ==
      table + NewRows(jobId, done + [e], first)
  {
    NewRowsSnoc(jobId, done, e, first);
    UnionUpdate(table, NewRows(jobId, done, first), first + |done|, FileRow(jobId, FileStatus.Pending, e.name, None));
  }

  lemma NewItemsSnoc(jobId: JobId, filesDir: Path, outputDir: Path, done: seq<Entry>, e: Entry, first: FileId)
    ensures NewItems(jobId, filesDir, outputDir, done + [e], first) ==
      NewItems(jobId, filesDir, outputDir, done, first) + [ItemFor(first + |done|, jobId, filesDir, outputDir, e)]
  {
    assert (done + [e])[..|done|] == done;
  }

  /**
   * Expansion inserts exactly one row per eligible entry, and the enqueued
   * items pair off with those rows in order: the i-th item carries the i-th
   * row's id, the job id, that row's name and the extracted path of that name.
   */
  lemma RowsMatchItems(jobId: JobId, filesDir: Path, outputDir: Path, eligible: seq<Entry>, first: FileId)
    ensures |NewRows(jobId, eligible, first)| == |eligible|
    ensures var rows := NewRows(jobId, eligible, first);
      var items := NewItems(jobId, filesDir, outputDir, eligible, first);
      && DistinctIds(items)
      && rows.Keys == Ids(items)
      && forall i :: 0 <= i < |items| ==>
           items[i].jobId == jobId && items[i].fileId in rows &&
           rows[items[i].fileId] == FileRow(jobId, FileStatus.Pending, items[i].fileName, None)
  {
    ItemsCarryRows(jobId, filesDir, outputDir, eligible, first);
    ItemIdsAreRowKeys(jobId, filesDir, outputDir, eligible, first);
  }

  /** The i-th item carries the job id and the id of a row that holds that item's name. */
  lemma ItemsCarryRows(jobId: JobId, filesDir: Path, outputDir: Path, eligible: seq<Entry>, first: FileId)
    ensures var rows := NewRows(jobId, eligible, first);
      var items := NewItems(jobId, filesDir, outputDir, eligible, first);
      forall i :: 0 <= i < |items| ==>
        items[i].jobId == jobId && items[i].fileId in rows &&
        rows[items[i].fileId] == FileRow(jobId, FileStatus.Pending, items[i].fileName, None)
  {
    var rows := NewRows(jobId, eligible, first);
    var items := NewItems(jobId, filesDir, outputDir, eligible, first);
    NewRowsShape(jobId, eligible, first);
    NewItemsShape(jobId, filesDir, outputDir, eligible, first);
    forall i | 0 <= i < |items|
      ensures items[i].jobId == jobId && items[i].fileId in rows
      ensures rows[items[i].fileId] == FileRow(jobId, FileStatus.Pending, items[i].fileName, None)
    {
      assert items[i].fileId == first + i;
    }
  }

  /** The items' ids are distinct and are exactly the keys of the inserted rows. */
  lemma ItemIdsAreRowKeys(jobId: JobId, filesDir: Path, outputDir: Path, eligible: seq<Entry>, first: FileId)
    ensures DistinctIds(NewItems(jobId, filesDir, outputDir, eligible, first))
    ensures NewRows(jobId, eligible, first).Keys == Ids(NewItems(jobId, filesDir, outputDir, eligible, first))
    ensures |NewRows(jobId, eligible, first)| == |eligible|
  {
    var rows := NewRows(jobId, eligible, first);
    var items := NewItems(jobId, filesDir, outputDir, eligible, first);
    NewRowsShape(jobId, eligible, first);
    NewItemsShape(jobId, filesDir, outputDir, eligible, first);
    forall id | id in rows ensures id in Ids(items) {
      var i: nat := id - first;
      assert items[i].fileId == id;
    }
  }

  /** The error the expansion loop rethrows when the archive has `n` eligible entries, if any. */
  function LoopError(fault: ExpandFault, n: nat): (error: Option<Error>)
    ensures error.Some? <==> ExpansionFails(fault, n) && !fault.UnzippedUpdateFails?
  {
    match fault
    case InsertFails(at) => if at < n then Some(StoreError) else None
    case EnqueueFails(at) => if at < n then Some(QueueError) else None
    case _ => None
  }

  /** What the expansion loop has written so far: the `files` table, its serial, the file queue, the count and the error. */
  datatype Expansion = Expansion(files: map<FileId, FileRow>, nextId: FileId, items: seq<FileItem>,
                                 processed: nat, error: Option<Error>)

  /**
   * One pass of the expansion loop over entry `e`: skipped unless eligible;
   * otherwise a `PENDING` row under the next serial id, then the conversion
   * item carrying that id. A throw ends the loop, so a state with an error
   * does not change any more.
   */
  function ScanStep(s: Expansion, jobId: JobId, filesDir: Path, outputDir: Path, e: Entry, fault: ExpandFault): Expansion {
    if s.error.Some? || !Eligible(e) then s
    else if fault == InsertFails(s.processed) then s.(error := Some(StoreError))
    else
      var inserted := s.(files := s.files[s.nextId := FileRow(jobId, FileStatus.Pending, e.name, None)], nextId := s.nextId + 1);
      if fault == EnqueueFails(s.processed) then inserted.(error := Some(QueueError))
      else inserted.(items := s.items + [ItemFor(s.nextId, jobId, filesDir, outputDir, e)], processed := s.processed + 1)
  }

  /** The expansion loop run over the first `n` entries from state `s0`. */
  function ScanUpTo(s0: Expansion, jobId: JobId, filesDir: Path, outputDir: Path, entries: seq<Entry>, n: nat,
                    fault: ExpandFault): Expansion
    requires n <= |entries|
  {
    if n == 0 then s0
    else ScanStep(ScanUpTo(s0, jobId, filesDir, outputDir, entries, n - 1, fault), jobId, filesDir, outputDir, entries[n - 1], fault)
  }

  /** Once the loop has thrown, the later entries change nothing. */
  lemma {:induction false} ScanStuck(s0: Expansion, jobId: JobId, filesDir: Path, outputDir: Path, entries: seq<Entry>,
                                     m: nat, n: nat, fault: ExpandFault)
    requires m <= n <= |entries|
    requires ScanUpTo(s0, jobId, filesDir, outputDir, entries, m, fault).error.Some?
    ensures ScanUpTo(s0, jobId, filesDir, outputDir, entries, n, fault) == ScanUpTo(s0, jobId, filesDir, outputDir, entries, m, fault)
    decreases n
  {
    if m < n {
      ScanStuck(s0, jobId, filesDir, outputDir, entries, m, n - 1, fault);
    }
  }

  /**
   * The closed form of the loop's effect when `eligible` are the eligible
   * entries scanned: the rows and items written up to the fault, over the
   * table, serial and queue it started from.
   */
  function Expected(files0: map<FileId, FileRow>, first: FileId, items0: seq<FileItem>, jobId: JobId, filesDir: Path,
                    outputDir: Path, eligible: seq<Entry>, fault: ExpandFault): Expansion
  {
    var rows := RowsWritten(fault, |eligible|);
    var queued := ItemsQueued(fault, |eligible|);
    Expansion(files0 + NewRows(jobId, eligible[..rows], first), first + rows,
              items0 + NewItems(jobId, filesDir, outputDir, eligible[..queued], first), queued, LoopError(fault, |eligible|))
  }

  /** Scanning one more entry that is not eligible, or after the fault has fired, changes nothing in the closed form. */
  lemma ExpectedSkip(files0: map<FileId, FileRow>, first: FileId, items0: seq<FileItem>, jobId: JobId, filesDir: Path,
                     outputDir: Path, done: seq<Entry>, e: Entry, fault: ExpandFault)
    requires LoopError(fault, |done|).Some?
    ensures Expected(files0, first, items0, jobId, filesDir, outputDir, done + [e], fault) ==
      Expected(files0, first, items0, jobId, filesDir, outputDir, done, fault)
  {
    var k := RowsWritten(fault, |done|);
    var q := ItemsQueued(fault, |done|);
    assert RowsWritten(fault, |done| + 1) == k && ItemsQueued(fault, |done| + 1) == q;
    assert (done + [e])[..k] == done[..k];
    assert (done + [e])[..q] == done[..q];
  }

  /** Before the fault fires, the closed form holds every scanned eligible entry's row and item. */
  lemma ExpectedBeforeFault(files0: map<FileId, FileRow>, first: FileId, items0: seq<FileItem>, jobId: JobId, filesDir: Path,
                            outputDir: Path, done: seq<Entry>, fault: ExpandFault)
    requires LoopError(fault, |done|).None?
    ensures Expected(files0, first, items0, jobId, filesDir, outputDir, done, fault) ==
      Expansion(files0 + NewRows(jobId, done, first), first + |done|,
                items0 + NewItems(jobId, filesDir, outputDir, done, first), |done|, None)
  {
    assert done[..|done|] == done;
  }

  /** The insert of the next eligible entry throws: only the error changes. */
  lemma ExpectedInsertFails(files0: map<FileId, FileRow>, first: FileId, items0: seq<FileItem>, jobId: JobId, filesDir: Path,
                            outputDir: Path, done: seq<Entry>, e: Entry)
    ensures var fault := InsertFails(|done|);
      Expected(files0, first, items0, jobId, filesDir, outputDir, done + [e], fault) ==
        Expected(files0, first, items0, jobId, filesDir, outputDir, done, fault).(error := Some(StoreError))
  {
    assert (done + [e])[..|done|] == done[..|done|];
  }

  /** The add of the next eligible entry throws: its row is written, its item is not. */
  lemma ExpectedEnqueueFails(files0: map<FileId, FileRow>, first: FileId, items0: seq<FileItem>, jobId: JobId, filesDir: Path,
                             outputDir: Path, done: seq<Entry>, e: Entry)
    ensures var fault := EnqueueFails(|done|);
      var s := Expected(files0, first, items0, jobId, filesDir, outputDir, done, fault);
      Expected(files0, first, items0, jobId, filesDir, outputDir, done + [e], fault) ==
        s.(files := s.files[first + |done| := FileRow(jobId, FileStatus.Pending, e.name, None)], nextId := first + |done| + 1,
           error := Some(QueueError))
  {
    var n := |done|;
    assert (done + [e])[..n] == done[..n] == done;
    assert (done + [e])[..n + 1] == done + [e];
    RowsAfterInsert(files0, jobId, done, e, first);
  }

  /** Both calls for the next eligible entry succeed: its row and its item are added. */
  lemma ExpectedBothSucceed(files0: map<FileId, FileRow>, first: FileId, items0: seq<FileItem>, jobId: JobId, filesDir: Path,
                            outputDir: Path, done: seq<Entry>, e: Entry, fault: ExpandFault)
    requires LoopError(fault, |done| + 1).None?
    ensures var s := Expected(files0, first, items0, jobId, filesDir, outputDir, done, fault);
      Expected(files0, first, items0, jobId, filesDir, outputDir, done + [e], fault) ==
        s.(files := s.files[first + |done| := FileRow(jobId, FileStatus.Pending, e.name, None)], nextId := first + |done| + 1,
           items := s.items + [ItemFor(first + |done|, jobId, filesDir, outputDir, e)], processed := |done| + 1)
  {
    ExpectedBeforeFault(files0, first, items0, jobId, filesDir, outputDir, done, fault);
    ExpectedBeforeFault(files0, first, items0, jobId, filesDir, outputDir, done + [e], fault);
    RowsAfterInsert(files0, jobId, done, e, first);
    NewItemsSnoc(jobId, filesDir, outputDir, done, e, first);
  }

  /** Scanning one more eligible entry before the fault has fired: the closed form grows as the loop body does. */
  lemma ExpectedGrow(files0: map<FileId, FileRow>, first: FileId, items0: seq<FileItem>, jobId: JobId, filesDir: Path,
                     outputDir: Path, done: seq<Entry>, e: Entry, fault: ExpandFault)
    requires LoopError(fault, |done|).None? && Eligible(e)
    ensures Expected(files0, first, items0, jobId, filesDir, outputDir, done + [e], fault) ==
      ScanStep(Expected(files0, first, items0, jobId, filesDir, outputDir, done, fault), jobId, filesDir, outputDir, e, fault)
  {
    ExpectedBeforeFault(files0, first, items0, jobId, filesDir, outputDir, done, fault);
    if fault == InsertFails(|done|) {
      ExpectedInsertFails(files0, first, items0, jobId, filesDir, outputDir, done, e);
    } else if fault == EnqueueFails(|done|) {
      ExpectedEnqueueFails(files0, first, items0, jobId, filesDir, outputDir, done, e);
    } else {
      ExpectedBothSucceed(files0, first, items0, jobId, filesDir, outputDir, done, e, fault);
    }
  }

  /**
   * The expansion loop's effect in closed form: after scanning the first `n`
   * entries, the table holds one new `PENDING` row per eligible entry up to
   * the fault, the queue one item per row whose add succeeded, and the error
   * is the fault's if it fired.
   */
  lemma {:induction false} ScanClosedForm(files0: map<FileId, FileRow>, first: FileId, items0: seq<FileItem>, jobId: JobId,
                                          filesDir: Path, outputDir: Path, entries: seq<Entry>, n: nat, fault: ExpandFault)
    requires n <= |entries|
    ensures ScanUpTo(Expansion(files0, first, items0, 0, None), jobId, filesDir, outputDir, entries, n, fault) ==
      Expected(files0, first, items0, jobId, filesDir, outputDir, EligiblesUpTo(entries, n), fault)
  {
    if n == 0 {
      var none: seq<Entry> := [];
      assert none[..0] == none;
      assert NewRows(jobId, none, first) == map[] && files0 + map[] == files0;
      assert NewItems(jobId, filesDir, outputDir, none, first) == [] && items0 + [] == items0;
    } else {
      ScanClosedForm(files0, first, items0, jobId, filesDir, outputDir, entries, n - 1, fault);
      var done := EligiblesUpTo(entries, n - 1);
      var e := entries[n - 1];
      var s := ScanUpTo(Expansion(files0, first, items0, 0, None), jobId, filesDir, outputDir, entries, n - 1, fault);
      assert ScanUpTo(Expansion(files0, first, items0, 0, None), jobId, filesDir, outputDir, entries, n, fault) ==
        ScanStep(s, jobId, filesDir, outputDir, e, fault);
      if !Eligible(e) {
        assert EligiblesUpTo(entries, n) == done + [] == done;
      } else {
        assert EligiblesUpTo(entries, n) == done + [e];
        if LoopError(fault, |done|).Some? {
          ExpectedSkip(files0, first, items0, jobId, filesDir, outputDir, done, e, fault);
        } else {
          ExpectedGrow(files0, first, items0, jobId, filesDir, outputDir, done, e, fault);
        }
      }
    }
  }

  /**
   * The loop of `jobQueue.process`: for each eligible entry, in order, one
   * `PENDING` row and then one conversion item carrying that row's id. A
   * throw stops the loop and is handed back; the rows and items written
   * before it stay. `processed` is the number of items enqueued.
   */
  method ExpandEntries(store: Store, fileQueue: Queue<FileItem>, jobId: JobId, filesDir: Path, outputDir: Path,
                       entries: seq<Entry>, fault: ExpandFault)
    returns (error: Option<Error>, processed: nat)
    modifies store, fileQueue
    ensures Expansion(store.files, store.nextFileId, fileQueue.items, processed, error) ==
      ScanUpTo(Expansion(old(store.files), old(store.nextFileId), old(fileQueue.items), 0, None),
               jobId, filesDir, outputDir, entries, |entries|, fault)
    ensures store.jobs == old(store.jobs)
  {
    ghost var s0 := Expansion(store.files, store.nextFileId, fileQueue.items, 0, None);
    processed := 0;
    var i := 0;
    while i < |entries|
      invariant 0 <= i <= |entries|
      invariant Expansion(store.files, store.nextFileId, fileQueue.items, processed, None) ==
        ScanUpTo(s0, jobId, filesDir, outputDir, entries, i, fault)
      invariant store.jobs == old(store.jobs)
    {
      var entry := entries[i];
      if Eligible(entry) {
        if fault == InsertFails(processed) {
          ScanStuck(s0, jobId, filesDir, outputDir, entries, i + 1, |entries|, fault);
          return Some(StoreError), processed;
        }
        var id := store.InsertFile(jobId, entry.name);
        if fault == EnqueueFails(processed) {
          ScanStuck(s0, jobId, filesDir, outputDir, entries, i + 1, |entries|, fault);
          return Some(QueueError), processed;
        }
        fileQueue.Add(ItemFor(id, jobId, filesDir, outputDir, entry));
        processed := processed + 1;
      }
      i := i + 1;
    }
    error := None;
  }

  /**
   * `jobQueue.process`: derives the job's directories from the upload path,
   * expands the archive's entries, then marks the job `UNZIPPED`. Any throw
   * (an unreadable archive, a failed insert, add or update) marks the job
   * `FAILED` and is rethrown, keeping the rows and items written before it.
   */
  method ProcessJob(store: Store, fileQueue: Queue<FileItem>, item: JobItem, archive: Option<seq<Entry>>, fault: ExpandFault)
    returns (outcome: Outcome, processed: nat)
    requires store.Valid()
    modifies store, fileQueue
    ensures store.Valid()
    ensures archive.None? ==>
      && outcome == Fail(ArchiveUnreadable) && processed == 0
      && store.files == old(store.files) && store.nextFileId == old(store.nextFileId)
      && fileQueue.items == old(fileQueue.items)
    ensures archive.Some? ==>
      var expected := Expected(old(store.files), old(store.nextFileId), old(fileQueue.items), item.jobId,
                               FilesDir(item.filePath), OutputDir(item.filePath), Eligibles(archive.value), fault);
      && store.files == expected.files && store.nextFileId == expected.nextId
      && fileQueue.items == expected.items && processed == expected.processed
    ensures outcome.Pass? <==> archive.Some? && !ExpansionFails(fault, |Eligibles(archive.value)|)
    ensures archive.Some? && ExpansionFails(fault, |Eligibles(archive.value)|) ==>
      var loopError := LoopError(fault, |Eligibles(archive.value)|);
      outcome == Fail(if loopError.Some? then loopError.value else StoreError)
    ensures store.jobs == WithJobStatus(old(store.jobs), item.jobId,
                                       if outcome.Pass? then JobStatus.Unzipped else JobStatus.Failed)
  {
    var jobId := item.jobId;
    var filesDir := FilesDir(item.filePath);
    var outputDir := OutputDir(item.filePath);
    if archive.None? {
      store.SetJobStatus(jobId, JobStatus.Failed);
      return Fail(ArchiveUnreadable), 0;
    }
    var entries := archive.value;
    ghost var eligible := Eligibles(entries);
    ghost var files0 := store.files;
    ghost var first := store.nextFileId;
    var error;
    error, processed := ExpandEntries(store, fileQueue, jobId, filesDir, outputDir, entries, fault);
    ScanClosedForm(files0, first, old(fileQueue.items), jobId, filesDir, outputDir, entries, |entries|, fault);
    EligiblesUpToAll(entries);
    RowsBelow(files0, jobId, eligible[..RowsWritten(fault, |eligible|)], first);
    if error.Some? {
      store.SetJobStatus(jobId, JobStatus.Failed);
      return Fail(error.value), processed;
    }
    if fault == UnzippedUpdateFails {
      store.SetJobStatus(jobId, JobStatus.Failed);
      return Fail(StoreError), processed;
    }
    store.SetJobStatus(jobId, JobStatus.Unzipped);
    outcome := Pass;
  }

  // ---------------------------------------------------------------------------
  // Conversion (`fileQueue.process`) and `finalizeJob`

  /** How one conversion goes: the first step that throws, if any. */
  datatype ConversionRun =
    | Converted            // converter call, output write and both queries succeed
    | ConversionFails      // the converter call or the output stream fails
    | OutputUpdateFails    // the `COMPLETED` update throws
    | CountQueryFails      // the pending-count query throws, after the `COMPLETED` update

  /** Where the converted document is written. */
  function PdfPath(item: FileItem): Path {
    Join(item.outputDir, PdfName(item.fileName))
  }

  /** The `files` table after one conversion handler run. */
  function FilesAfterConversion(files: map<FileId, FileRow>, item: FileItem, run: ConversionRun): map<FileId, FileRow> {
    match run
    case Converted => WithFileOutput(files, item.fileId, PdfPath(item))
    case ConversionFails => WithFileStatus(files, item.fileId, FileStatus.Failed)
    case OutputUpdateFails => WithFileStatus(files, item.fileId, FileStatus.Failed)
    case CountQueryFails =>
      WithFileStatus(WithFileOutput(files, item.fileId, PdfPath(item)), item.fileId, FileStatus.Failed)
  }

  /** The handler calls `finalizeJob` when the count of not-completed files of the job comes back 0. */
  predicate FinalizeInvoked(files: map<FileId, FileRow>, item: FileItem, run: ConversionRun) {
    run.Converted? && |NotCompleted(WithFileOutput(files, item.fileId, PdfPath(item)), item.jobId)| == 0
  }

  /** The `jobs` table after `finalizeJob`: `COMPLETED` with the result archive, or `FAILED_ZIPPING`. */
  function JobsAfterFinalize(jobs: map<JobId, Job>, jobId: JobId, outputDir: Path, zipped: bool): map<JobId, Job> {
    if zipped then WithJobResult(jobs, jobId, ResultZip(outputDir))
    else WithJobStatus(jobs, jobId, JobStatus.FailedZipping)
  }

  /**
   * `finalizeJob`: zips the output directory into `result.zip` in the job
   * root and marks the job `COMPLETED` with that path; if zipping or the update
   * throws (`zipped` false) the job becomes `FAILED_ZIPPING`. It throws only if
   * that `FAILED_ZIPPING` update throws as well, which the model does not cover.
   */
  method FinalizeJob(store: Store, jobId: JobId, outputDir: Path, zipped: bool)
    requires store.Valid()
    modifies store
    ensures store.Valid()
    ensures store.jobs == JobsAfterFinalize(old(store.jobs), jobId, outputDir, zipped)
    ensures store.files == old(store.files) && store.nextFileId == old(store.nextFileId)
  {
    var finalZipPath := ResultZip(outputDir);
    if zipped {
      store.SetJobResult(jobId, finalZipPath);
    } else {
      store.SetJobStatus(jobId, JobStatus.FailedZipping);
    }
  }

  /**
   * `fileQueue.process`: converts one document, marks its row `COMPLETED`
   * with the derived PDF path, counts the job's files that are not
   * `COMPLETED`, and finalizes the job when that count is 0. Any throw marks
   * the row `FAILED` and is rethrown; the count check then does not run.
   */
  method ProcessFile(store: Store, item: FileItem, run: ConversionRun, zipped: bool)
    returns (outcome: Outcome, finalized: bool)
    requires store.Valid()
    modifies store
    ensures store.Valid()
    ensures store.files == FilesAfterConversion(old(store.files), item, run)
    ensures finalized == FinalizeInvoked(old(store.files), item, run)
    ensures outcome.Pass? <==> run.Converted?
    ensures run.ConversionFails? ==> outcome == Fail(ConversionError)
    ensures run.OutputUpdateFails? || run.CountQueryFails? ==> outcome == Fail(StoreError)
    ensures store.jobs == if finalized then JobsAfterFinalize(old(store.jobs), item.jobId, item.outputDir, zipped)
                          else old(store.jobs)
    ensures store.nextFileId == old(store.nextFileId)
  {
    finalized := false;
    if run == ConversionFails {
      store.SetFileStatus(item.fileId, FileStatus.Failed);
      return Fail(ConversionError), false;
    }
    var outputPath := Join(item.outputDir, PdfName(item.fileName));
    if run == OutputUpdateFails {
      store.SetFileStatus(item.fileId, FileStatus.Failed);
      return Fail(StoreError), false;
    }
    store.SetFileOutput(item.fileId, outputPath);
    if run == CountQueryFails {
      store.SetFileStatus(item.fileId, FileStatus.Failed);
      return Fail(StoreError), false;
    }
    if store.NotCompletedCount(item.jobId) == 0 {
      FinalizeJob(store, item.jobId, item.outputDir, zipped);
      finalized := true;
    }
    outcome := Pass;
  }

  /**
   * One conversion changes only its own row: `COMPLETED` with the PDF path on
   * success, `FAILED` otherwise. When the count query is what fails, the row
   * ends `FAILED` yet keeps the output path the `COMPLETED` update wrote.
   */
  lemma ConversionRowEffect(files: map<FileId, FileRow>, item: FileItem, run: ConversionRun)
    requires item.fileId in files
    ensures var after := FilesAfterConversion(files, item, run);
      && after.Keys == files.Keys
      && (forall id :: id in files && id != item.fileId ==> after[id] == files[id])
      && after[item.fileId].jobId == files[item.fileId].jobId
      && after[item.fileId].fileName == files[item.fileId].fileName
      && (after[item.fileId].status == FileStatus.Completed <==> run.Converted?)
      && (run.Converted? || run.CountQueryFails? ==> after[item.fileId].outputPath == Some(PdfPath(item)))
      && (run.ConversionFails? || run.OutputUpdateFails? ==> after[item.fileId].outputPath == files[item.fileId].outputPath)
  {
  }

  /**
   * `finalizeJob` is called exactly when the conversion succeeded and every
   * OTHER file of the job is already `COMPLETED`; a `FAILED` or `PENDING`
   * sibling keeps it from running.
   */
  lemma FinalizeIff(files: map<FileId, FileRow>, item: FileItem, run: ConversionRun)
    requires item.fileId in files && files[item.fileId].jobId == item.jobId
    ensures FinalizeInvoked(files, item, run) <==>
      && run.Converted?
      && forall id :: id in files && id != item.fileId && files[id].jobId == item.jobId ==>
           files[id].status == FileStatus.Completed
  {
    var after := WithFileOutput(files, item.fileId, PdfPath(item));
    NotCompletedEmpty(after, item.jobId);
    if forall id :: id in files && id != item.fileId && files[id].jobId == item.jobId ==>
         files[id].status == FileStatus.Completed
    {
      forall id | id in after && after[id].jobId == item.jobId
        ensures after[id].status == FileStatus.Completed
      {
        if id != item.fileId {
          assert after[id] == files[id];
        }
      }
    } else {
      var id :| id in files && id != item.fileId && files[id].jobId == item.jobId &&
                files[id].status != FileStatus.Completed;
      assert after[id] == files[id];
    }
  }

  /**
   * The result archive `finalizeJob` records is `result.zip` in the root of
   * the job whose upload produced the item's output directory.
   */
  lemma FinalizedResultPath(jobs: map<JobId, Job>, jobId: JobId, uploadPath: Path)
    requires jobId in jobs
    ensures var after := JobsAfterFinalize(jobs, jobId, OutputDir(uploadPath), true);
      after[jobId].status == JobStatus.Completed &&
      after[jobId].outputPath == Some(JobRoot(uploadPath) + ["result.zip"])
    ensures var after := JobsAfterFinalize(jobs, jobId, OutputDir(uploadPath), false);
      after[jobId].status == JobStatus.FailedZipping && after[jobId].outputPath == jobs[jobId].outputPath
  {
    JobLayout(uploadPath);
  }

  // ---------------------------------------------------------------------------
  // A job's conversions, one after another

  predicate DistinctIds(items: seq<FileItem>) {
    forall a, b :: 0 <= a < b < |items| ==> items[a].fileId != items[b].fileId
  }

  function Ids(items: seq<FileItem>): set<FileId> {
    set i | 0 <= i < |items| :: items[i].fileId
  }

  predicate AllConverted(runs: seq<ConversionRun>) {
    forall i :: 0 <= i < |runs| ==> runs[i].Converted?
  }

  /** How many of the handler runs call `finalizeJob`, when `items` are processed in order. */
  function FinalizeCount(files: map<FileId, FileRow>, items: seq<FileItem>, runs: seq<ConversionRun>): nat
    requires |items| == |runs|
    decreases |items|
  {
    if |items| == 0 then 0
    else
      (if FinalizeInvoked(files, items[0], runs[0]) then 1 else 0) +
      FinalizeCount(FilesAfterConversion(files, items[0], runs[0]), items[1..], runs[1..])
  }

  lemma NotCompletedAfterRun(files: map<FileId, FileRow>, item: FileItem, run: ConversionRun, j: JobId)
    requires item.fileId in NotCompleted(files, j)
    ensures NotCompleted(FilesAfterConversion(files, item, run), j) ==
      if run.Converted? then NotCompleted(files, j) - {item.fileId} else NotCompleted(files, j)
  {
    var id := item.fileId;
    NotCompletedAfterOutput(files, id, PdfPath(item), j);
    match run
    case Converted =>
    case ConversionFails => NotCompletedAfterFailure(files, id, j);
    case OutputUpdateFails => NotCompletedAfterFailure(files, id, j);
    case CountQueryFails =>
      NotCompletedAfterFailure(WithFileOutput(files, id, PdfPath(item)), id, j);
  }

  /** The ids of a non-empty item sequence: its head's and those of its tail, which exclude the head's when ids are distinct. */
  lemma IdsCons(items: seq<FileItem>)
    requires |items| > 0 && DistinctIds(items)
    ensures Ids(items) == {items[0].fileId} + Ids(items[1..])
    ensures items[0].fileId !in Ids(items[1..])
    ensures DistinctIds(items[1..])
  {
    var rest := items[1..];
    forall id | id in Ids(items) ensures id in {items[0].fileId} + Ids(rest) {
      var i :| 0 <= i < |items| && items[i].fileId == id;
      if i > 0 { assert rest[i - 1] == items[i]; }
    }
    forall i | 0 <= i < |rest| ensures rest[i].fileId != items[0].fileId {
      assert rest[i] == items[i + 1];
    }
  }

  /** Every run converts exactly when the first one does and every later one does. */
  lemma AllConvertedCons(runs: seq<ConversionRun>)
    requires |runs| > 0
    ensures AllConverted(runs) <==> runs[0].Converted? && AllConverted(runs[1..])
  {
    if runs[0].Converted? && AllConverted(runs[1..]) {
      forall i | 0 <= i < |runs| ensures runs[i].Converted? {
        if i > 0 { assert runs[i] == runs[1..][i - 1]; }
      }
    }
  }

  /** The head's conversion leaves the tail's files of job `j` still not completed. */
  lemma TailStillPending(files: map<FileId, FileRow>, j: JobId, items: seq<FileItem>, run: ConversionRun)
    requires |items| > 0 && DistinctIds(items)
    requires forall i :: 0 <= i < |items| ==> items[i].jobId == j && items[i].fileId in NotCompleted(files, j)
    ensures var after := FilesAfterConversion(files, items[0], run);
      forall i :: 0 <= i < |items[1..]| ==> items[1..][i].jobId == j && items[1..][i].fileId in NotCompleted(after, j)
  {
    NotCompletedAfterRun(files, items[0], run, j);
    var rest := items[1..];
    forall i | 0 <= i < |rest|
      ensures rest[i].jobId == j && rest[i].fileId in NotCompleted(FilesAfterConversion(files, items[0], run), j)
    {
      assert rest[i] == items[i + 1];
    }
  }

  /**
   * Processing distinct not-yet-completed files of job `j` one after another,
   * `finalizeJob` is called exactly once when the items cover every such file
   * and every conversion succeeds, and not at all otherwise: a single failed
   * conversion leaves its row `FAILED`, so the count never reaches 0.
   */
  lemma {:induction false} SequentialFinalize(files: map<FileId, FileRow>, j: JobId, items: seq<FileItem>, runs: seq<ConversionRun>)
    requires |items| == |runs|
    requires DistinctIds(items)
    requires forall i :: 0 <= i < |items| ==> items[i].jobId == j && items[i].fileId in NotCompleted(files, j)
    ensures FinalizeCount(files, items, runs) ==
      if |items| > 0 && AllConverted(runs) && Ids(items) == NotCompleted(files, j) then 1 else 0
    decreases |items|
  {
    if |items| > 0 {
      var x, r := items[0], runs[0];
      var rest, restRuns := items[1..], runs[1..];
      var after := FilesAfterConversion(files, x, r);
      var pending := NotCompleted(files, j);
      assert x.fileId in pending;
      NotCompletedAfterRun(files, x, r, j);
      IdsCons(items);
      AllConvertedCons(runs);
      TailStillPending(files, j, items, r);
      SequentialFinalize(after, j, rest, restRuns);
      assert FinalizeCount(files, items, runs) ==
        (if FinalizeInvoked(files, x, r) then 1 else 0) + FinalizeCount(after, rest, restRuns);
      if r.Converted? {
        assert NotCompleted(after, j) == pending - {x.fileId};
        assert FinalizeInvoked(files, x, r) <==> NotCompleted(after, j) == {};
        assert Ids(items) == pending <==> Ids(rest) == NotCompleted(after, j);
        if |rest| > 0 {
          assert rest[0].fileId in NotCompleted(after, j);
        } else {
          assert Ids(rest) == {};
        }
      } else {
        assert NotCompleted(after, j) == pending;
        assert x.fileId !in Ids(rest);
      }
    }
  }

  /**
   * An expansion without a fault, of a job with no earlier files, followed by
   * the conversion of every enqueued item exactly once in any order, calls
   * `finalizeJob` exactly once if every conversion succeeds and the archive had
   * an eligible entry; otherwise never, and the job stays `UNZIPPED`.
   */
  lemma ExpansionThenConversions(
    files: map<FileId, FileRow>, jobId: JobId, filesDir: Path, outputDir: Path,
    eligible: seq<Entry>, first: FileId, order: seq<FileItem>, runs: seq<ConversionRun>)
    requires forall id :: id in files ==> id < first && files[id].jobId != jobId
    requires DistinctIds(order) && |runs| == |order|
    requires forall x :: x in order <==> x in NewItems(jobId, filesDir, outputDir, eligible, first)
    ensures FinalizeCount(files + NewRows(jobId, eligible, first), order, runs) ==
      if |eligible| > 0 && AllConverted(runs) then 1 else 0
  {
    var rows := NewRows(jobId, eligible, first);
    var after := files + rows;
    var items := NewItems(jobId, filesDir, outputDir, eligible, first);
    RowsMatchItems(jobId, filesDir, outputDir, eligible, first);
    PendingAfterExpansion(files, jobId, eligible, first);
    forall i | 0 <= i < |order| ensures order[i].jobId == jobId && order[i].fileId in NotCompleted(after, jobId) {
      assert order[i] in items;
      var k :| 0 <= k < |items| && items[k] == order[i];
      assert items[k].jobId == jobId && items[k].fileId in rows;
    }
    SequentialFinalize(after, jobId, order, runs);
    IdsSameMembers(order, items);
    if |eligible| > 0 {
      assert items[0] in order;
    } else {
      if |order| > 0 {
        assert false;
      }
    }
  }

  /**
   * A failed expansion does not stop the job from completing. When a row
   * insert throws, or the final `UNZIPPED` update does, the job is marked
   * `FAILED` but every row written so far has its conversion item. If those
   * conversions all succeed, `finalizeJob` is called exactly once, and it
   * overwrites `FAILED` with `COMPLETED`.
   */
  lemma FailedExpansionStillFinalizes(
    files: map<FileId, FileRow>, first: FileId, items0: seq<FileItem>, jobId: JobId, filesDir: Path,
    outputDir: Path, eligible: seq<Entry>, fault: ExpandFault, order: seq<FileItem>, runs: seq<ConversionRun>)
    requires forall id :: id in files ==> id < first && files[id].jobId != jobId
    requires fault.InsertFails? || fault.UnzippedUpdateFails?
    requires DistinctIds(order) && |runs| == |order|
    requires var e := Expected(files, first, items0, jobId, filesDir, outputDir, eligible, fault);
      forall x :: x in order <==> x in e.items[|items0|..]
    ensures var e := Expected(files, first, items0, jobId, filesDir, outputDir, eligible, fault);
      FinalizeCount(e.files, order, runs) == if e.processed > 0 && AllConverted(runs) then 1 else 0
  {
    var n := |eligible|;
    var q := ItemsQueued(fault, n);
    var e := Expected(files, first, items0, jobId, filesDir, outputDir, eligible, fault);
    assert RowsWritten(fault, n) == q;
    var queued := NewItems(jobId, filesDir, outputDir, eligible[..q], first);
    assert e.items[|items0|..] == queued;
    ExpansionThenConversions(files, jobId, filesDir, outputDir, eligible[..q], first, order, runs);
  }

  /**
   * An enqueue that throws strands the job. Its row was inserted but never
   * got an item, so it stays `PENDING`. Converting every queued item never
   * brings the job's count of not-completed files to zero, and `finalizeJob`
   * is never called.
   */
  lemma EnqueueFailureStrandsJob(
    files: map<FileId, FileRow>, first: FileId, items0: seq<FileItem>, jobId: JobId, filesDir: Path,
    outputDir: Path, eligible: seq<Entry>, k: nat, order: seq<FileItem>, runs: seq<ConversionRun>)
    requires forall id :: id in files ==> id < first && files[id].jobId != jobId
    requires k < |eligible|
    requires DistinctIds(order) && |runs| == |order|
    requires var e := Expected(files, first, items0, jobId, filesDir, outputDir, eligible, EnqueueFails(k));
      forall x :: x in order <==> x in e.items[|items0|..]
    ensures var e := Expected(files, first, items0, jobId, filesDir, outputDir, eligible, EnqueueFails(k));
      FinalizeCount(e.files, order, runs) == 0
  {
    var e := Expected(files, first, items0, jobId, filesDir, outputDir, eligible, EnqueueFails(k));
    var queued := NewItems(jobId, filesDir, outputDir, eligible[..k], first);
    var after := files + NewRows(jobId, eligible[..k + 1], first);
    assert e.items[|items0|..] == queued;
    assert e.files == after;
    StrandedRow(files, jobId, filesDir, outputDir, eligible, first, k);
    forall i | 0 <= i < |order| ensures order[i].jobId == jobId && order[i].fileId in NotCompleted(after, jobId) {
      assert order[i] in queued;
    }
    SequentialFinalize(after, jobId, order, runs);
    IdsSameMembers(order, queued);
  }

  /**
   * After an enqueue fails at the k-th eligible entry, each queued item
   * names a not-completed file of the job. Row `first + k` is not completed
   * either, and no item names it.
   */
  lemma StrandedRow(files: map<FileId, FileRow>, jobId: JobId, filesDir: Path, outputDir: Path,
                    eligible: seq<Entry>, first: FileId, k: nat)
    requires forall id :: id in files ==> id < first && files[id].jobId != jobId
    requires k < |eligible|
    ensures var after := files + NewRows(jobId, eligible[..k + 1], first);
      var queued := NewItems(jobId, filesDir, outputDir, eligible[..k], first);
      && (forall x :: x in queued ==> x.jobId == jobId && x.fileId in NotCompleted(after, jobId))
      && first + k in NotCompleted(after, jobId)
      && first + k !in Ids(queued)
  {
    var queued := NewItems(jobId, filesDir, outputDir, eligible[..k], first);
    var rows := NewRows(jobId, eligible[..k + 1], first);
    NewItemsShape(jobId, filesDir, outputDir, eligible[..k], first);
    NewRowsShape(jobId, eligible[..k + 1], first);
    PendingAfterExpansion(files, jobId, eligible[..k + 1], first);
    forall x | x in queued ensures x.jobId == jobId && x.fileId in rows {
      var j :| 0 <= j < |queued| && queued[j] == x;
    }
    assert first + k in rows;
  }

  /** Right after expansion, the job's not-completed files are exactly the rows it inserted. */
  lemma PendingAfterExpansion(files: map<FileId, FileRow>, jobId: JobId, eligible: seq<Entry>, first: FileId)
    requires forall id :: id in files ==> files[id].jobId != jobId
    ensures NotCompleted(files + NewRows(jobId, eligible, first), jobId) == NewRows(jobId, eligible, first).Keys
  {
    var rows := NewRows(jobId, eligible, first);
    var after := files + rows;
    NewRowsShape(jobId, eligible, first);
    forall id | id in rows.Keys ensures id in NotCompleted(after, jobId) {
      assert rows[id] == FileRow(jobId, FileStatus.Pending, eligible[id - first].name, None);
    }
    assert NotCompleted(after, jobId) <= rows.Keys;
  }

  /** Two item sequences with the same members carry the same ids. */
  lemma IdsSameMembers(a: seq<FileItem>, b: seq<FileItem>)
    requires forall x :: x in a <==> x in b
    ensures Ids(a) == Ids(b)
  {
    forall id | id in Ids(a) ensures id in Ids(b) {
      var i :| 0 <= i < |a| && a[i].fileId == id;
      assert a[i] in b;
      var k :| 0 <= k < |b| && b[k] == a[i];
    }
    forall id | id in Ids(b) ensures id in Ids(a) {
      var i :| 0 <= i < |b| && b[i].fileId == id;
      assert b[i] in a;
      var k :| 0 <= k < |a| && a[k] == b[i];
    }
  }
}
