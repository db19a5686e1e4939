/**
 * The upload route's handler: it counts the archive's convertible documents,
 * records the job as PENDING, queues a PROCESS_ZIP item and answers 202
 * whether or not those steps succeeded.
 */
module Upload {
  import opened Wrappers
  import opened Paths
  import opened Entries
  import opened Store
  import opened Queues

  /** The file multer stored for the request: only its path is used. */
  datatype UploadedFile = UploadedFile(path: Path)

  /** A request as the handler sees it: the id the route assigned and the stored upload, if any. */
  datatype Request = Request(jobId: JobId, file: Option<UploadedFile>)

  /** The JSON bodies the handler sends. */
  datatype Body =
    | ErrorBody(error: string)
    | Accepted(jobId: JobId, fileCount: nat, message: string)

  datatype Response = Response(code: nat, body: Body)

  /** Which awaited call inside the handler's `try` block rejects, if any. */
  datatype UploadFault = NoUploadFault | JobInsertFails | JobEnqueueFails

  const MissingFileMessage: string := "Please upload a file"
  const AcceptedMessage: string := "Accepted"

  /** The `forEach` over the entries, incrementing the count for each one that passes the filter. */
  method CountEligible(entries: seq<Entry>) returns (n: nat)
    ensures n == |Eligibles(entries)|
  {
    n := 0;
    var i := 0;
    while i < |entries|
      invariant 0 <= i <= |entries|
      invariant n == |EligiblesUpTo(entries, i)|
    {
      if Eligible(entries[i]) {
        n := n + 1;
      }
      i := i + 1;
    }
    EligiblesUpToAll(entries);
  }

  /**
   * `fileUpload`. Without a stored file the answer is 400 and nothing is
   * written. Otherwise the archive is read (`None` when it cannot be opened),
   * its eligible entries counted, the job row inserted and the job queued;
   * the first failure skips the remaining steps and is swallowed, and the
   * answer is 202 with the count reached. The row insert is refused when
   * the job id already has a row.
   */
  method FileUpload(store: Store, jobQueue: Queue<JobItem>, req: Request,
                    archive: Option<seq<Entry>>, fault: UploadFault)
    returns (res: Response)
    requires store.Valid()
    modifies store, jobQueue
    ensures store.Valid()
    ensures req.file.None? ==>
      && res == Response(400, ErrorBody(MissingFileMessage))
      && store.jobs == old(store.jobs) && jobQueue.items == old(jobQueue.items)
    ensures req.file.Some? ==>
      var count := if archive.Some? then |Eligibles(archive.value)| else 0;
      var inserted := archive.Some? && fault != JobInsertFails && req.jobId !in old(store.jobs);
      var queued := inserted && fault != JobEnqueueFails;
      && res == Response(202, Accepted(req.jobId, count, AcceptedMessage))
      && store.jobs == (if inserted then old(store.jobs)[req.jobId := Job(JobStatus.Pending, req.file.value.path, None)]
                        else old(store.jobs))
      && jobQueue.items == old(jobQueue.items) +
           (if queued then [JobItem(req.jobId, ProcessZip, req.file.value.path)] else [])
    ensures store.files == old(store.files) && store.nextFileId == old(store.nextFileId)
  {
    if req.file.None? {
      return Response(400, ErrorBody(MissingFileMessage));
    }
    var jobId := req.jobId;
    var filePath := req.file.value.path;
    var fileCount := 0;
    if archive.Some? {
      fileCount := CountEligible(archive.value);
      var ok := false;
      if fault != JobInsertFails {
        ok := store.InsertJob(jobId, filePath);
      }
      if ok && fault != JobEnqueueFails {
        jobQueue.Add(JobItem(jobId, ProcessZip, filePath));
      }
    }
    res := Response(202, Accepted(jobId, fileCount, AcceptedMessage));
  }
}
