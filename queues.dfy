/**
 * The two Bull queues and their payloads. A queue is the sequence of items
 * added to it; delivery, retry and concurrency belong to the queue library.
 */
module Queues {
  import opened Paths
  import opened Store

  /** The job type tag the upload controller puts on every job item. */
  const ProcessZip: string := "PROCESS_ZIP"

  /** A `jobQueue` item: `{jobId, type, filePath}`. */
  datatype JobItem = JobItem(jobId: JobId, kind: string, filePath: Path)

  /** A `fileQueue` item: `{fileId, jobId, inputPath, outputDir, fileName}`. */
  datatype FileItem = FileItem(fileId: FileId, jobId: JobId, inputPath: Path, outputDir: Path, fileName: string)

  class Queue<T> {
    var items: seq<T>

    constructor ()
      ensures items == []
    {
      items := [];
    }

    /** `queue.add(data)` */
    method Add(x: T)
      modifies this
      ensures items == old(items) + [x]
    {
      items := items + [x];
    }
  }
}
