/**
 * The two PostgreSQL tables the pipeline reads and writes, `jobs` and
 * `files`, as maps held by one object. Each update method stands for one SQL
 * statement; an `UPDATE ... WHERE id = $n` that matches no row changes nothing.
 */
module Store {
  import opened Wrappers
  import opened Paths

  /** Job ids are the UUID strings the upload route assigns. */
  type JobId = string
  /** File ids come from the `files` table's serial key. */
  type FileId = nat

  datatype JobStatus = Pending | Unzipped | Completed | Failed | FailedZipping
  datatype FileStatus = Pending | Completed | Failed

  /** A `jobs` row: `status`, `zip_path` and the result archive's `output_path`. */
  datatype Job = Job(status: JobStatus, zipPath: Path, outputPath: Option<Path>)

  /** A `files` row: `job_id`, `status`, `file_name` and the converted `output_path`. */
  datatype FileRow = FileRow(jobId: JobId, status: FileStatus, fileName: string, outputPath: Option<Path>)

  /** `UPDATE jobs SET status = $1 WHERE id = $2` */
  function WithJobStatus(jobs: map<JobId, Job>, id: JobId, status: JobStatus): map<JobId, Job> {
    if id in jobs then jobs[id := jobs[id].(status := status)] else jobs
  }

  /** `UPDATE jobs SET status = 'COMPLETED', output_path = $1 WHERE id = $2` */
  function WithJobResult(jobs: map<JobId, Job>, id: JobId, path: Path): map<JobId, Job> {
    if id in jobs then jobs[id := jobs[id].(status := JobStatus.Completed, outputPath := Some(path))] else jobs
  }

  /** `UPDATE files SET status = $1 WHERE id = $2` */
  function WithFileStatus(files: map<FileId, FileRow>, id: FileId, status: FileStatus): map<FileId, FileRow> {
    if id in files then files[id := files[id].(status := status)] else files
  }

  /** `UPDATE files SET status = 'COMPLETED', output_path = $2 WHERE id = $3` */
  function WithFileOutput(files: map<FileId, FileRow>, id: FileId, path: Path): map<FileId, FileRow> {
    if id in files then files[id := files[id].(status := FileStatus.Completed, outputPath := Some(path))] else files
  }

  /** The rows `SELECT COUNT(*) FROM files WHERE job_id = $1 AND status != 'COMPLETED'` counts. */
  function NotCompleted(files: map<FileId, FileRow>, jobId: JobId): set<FileId> {
    set id | id in files && files[id].jobId == jobId && files[id].status != FileStatus.Completed
  }

  /** The count is zero exactly when every file of the job is completed. */
  lemma NotCompletedEmpty(files: map<FileId, FileRow>, jobId: JobId)
    ensures |NotCompleted(files, jobId)| == 0 <==>
      forall id :: id in files && files[id].jobId == jobId ==> files[id].status == FileStatus.Completed
  {
    if |NotCompleted(files, jobId)| != 0 {
      var id :| id in NotCompleted(files, jobId);
    } else {
      assert NotCompleted(files, jobId) == {};
      forall id | id in files && files[id].jobId == jobId
        ensures files[id].status == FileStatus.Completed
      {
        assert id !in NotCompleted(files, jobId);
      }
    }
  }

  /** Completing a file of the job removes it, and only it, from the count. */
  lemma NotCompletedAfterOutput(files: map<FileId, FileRow>, id: FileId, path: Path, jobId: JobId)
    ensures NotCompleted(WithFileOutput(files, id, path), jobId) == NotCompleted(files, jobId) - {id}
  {
  }

  /** Marking a file of the job failed keeps it in the count. */
  lemma NotCompletedAfterFailure(files: map<FileId, FileRow>, id: FileId, jobId: JobId)
    requires id in files && files[id].jobId == jobId
    ensures NotCompleted(WithFileStatus(files, id, FileStatus.Failed), jobId) == NotCompleted(files, jobId) + {id}
  {
  }

  /** Updating a key of a union that the right operand holds updates the right operand. */
  lemma UnionUpdate<K, V>(a: map<K, V>, b: map<K, V>, k: K, v: V)
    ensures (a + b)[k := v] == a + b[k := v]
  {
  }

  class Store {
    var jobs: map<JobId, Job>
    var files: map<FileId, FileRow>
    /** The next value of the `files` serial key. */
    var nextFileId: FileId

    ghost predicate Valid()
      reads this
    {
      forall id :: id in files ==> id < nextFileId
    }

    constructor ()
      ensures Valid()
      ensures jobs == map[] && files == map[] && nextFileId == 0
    {
      jobs := map[];
      files := map[];
      nextFileId := 0;
    }

    /** `INSERT INTO jobs (id, status, zip_path) VALUES ($1, 'PENDING', $3)`; a duplicate key is refused. */
    method InsertJob(id: JobId, zipPath: Path) returns (ok: bool)
      requires Valid()
      modifies this
      ensures Valid()
      ensures ok <==> id !in old(jobs)
      ensures jobs == if ok then old(jobs)[id := Job(JobStatus.Pending, zipPath, None)] else old(jobs)
      ensures files == old(files) && nextFileId == old(nextFileId)
    {
      ok := id !in jobs;
      if ok {
        jobs := jobs[id := Job(JobStatus.Pending, zipPath, None)];
      }
    }

    /** `INSERT INTO files (job_id, status, file_name) VALUES ($1, 'PENDING', $3) RETURNING id` */
    method InsertFile(jobId: JobId, fileName: string) returns (id: FileId)
      modifies this
      ensures old(Valid()) ==> Valid() && id !in old(files)
      ensures id == old(nextFileId)
      ensures files == old(files)[id := FileRow(jobId, FileStatus.Pending, fileName, None)]
      ensures nextFileId == id + 1 && jobs == old(jobs)
    {
      id := nextFileId;
      files := files[id := FileRow(jobId, FileStatus.Pending, fileName, None)];
      nextFileId := nextFileId + 1;
    }

    method SetJobStatus(id: JobId, status: JobStatus)
      requires Valid()
      modifies this
      ensures Valid()
      ensures jobs == WithJobStatus(old(jobs), id, status)
      ensures files == old(files) && nextFileId == old(nextFileId)
    {
      jobs := WithJobStatus(jobs, id, status);
    }

    method SetJobResult(id: JobId, path: Path)
      requires Valid()
      modifies this
      ensures Valid()
      ensures jobs == WithJobResult(old(jobs), id, path)
      ensures files == old(files) && nextFileId == old(nextFileId)
    {
      jobs := WithJobResult(jobs, id, path);
    }

    method SetFileStatus(id: FileId, status: FileStatus)
      requires Valid()
      modifies this
      ensures Valid()
      ensures files == WithFileStatus(old(files), id, status)
      ensures jobs == old(jobs) && nextFileId == old(nextFileId)
    {
      files := WithFileStatus(files, id, status);
    }

    method SetFileOutput(id: FileId, path: Path)
      requires Valid()
      modifies this
      ensures Valid()
      ensures files == WithFileOutput(old(files), id, path)
      ensures jobs == old(jobs) && nextFileId == old(nextFileId)
    {
      files := WithFileOutput(files, id, path);
    }

    /** The pending-count query; zero exactly when every file of the job is completed. */
    function NotCompletedCount(jobId: JobId): (n: nat)
      reads this
      ensures n == 0 <==>
        forall id :: id in files && files[id].jobId == jobId ==> files[id].status == FileStatus.Completed
    {
      NotCompletedEmpty(files, jobId);
      |NotCompleted(files, jobId)|
    }
  }
}
