/** The job record store, the object store and the publish target used by the bulk-upload
    pipeline: repository/bulkfilejobs.go. */
module BulkFileJobsRepo {
  import opened Common
  import opened Text

  const PENDING: string := "PENDING"
  const PROCESSING: string := "PROCESSING"
  const PROCESSED: string := "PROCESSED"
  const FAILED: string := "FAILED"

  /** A row of the bulk_file_jobs table; the same record travels through the queue as the
      job descriptor and is the patch handed to UpdateFileUpload. */
  datatype Job = Job(
    id: int,
    requestId: string,
    requestType: string,
    status: string,
    fileName: string,
    filePath: string,
    totalRecords: int,
    processedRecords: int,
    errorMessage: string)

  /** A column change set: column name to new value, like the Go `updates` map. */
  type Changes = map<string, Value>

  const JobUpdatableColumns: set<string> :=
    {"status", "file_path", "total_records", "processed_records", "error_message"}

  /** The `updates` map of UpdateFileUpload, built one field at a time: a column enters
      the map only when the patch holds a non-empty string or a non-zero number for it. */
  function JobChanges(patch: Job): Changes
  {
    var c0: Changes := map[];
    var c1 := if patch.status != "" then c0["status" := Text(patch.status)] else c0;
    var c2 := if patch.filePath != "" then c1["file_path" := Text(patch.filePath)] else c1;
    var c3 := if patch.totalRecords != 0 then c2["total_records" := Number(patch.totalRecords)] else c2;
    var c4 := if patch.processedRecords != 0 then c3["processed_records" := Number(patch.processedRecords)] else c3;
    if patch.errorMessage != "" then c4["error_message" := Text(patch.errorMessage)] else c4
  }

  function TextOr(c: Changes, column: string, current: string): string
  {
    if column in c && c[column].Text? then c[column].text else current
  }

  function NumberOr(c: Changes, column: string, current: int): int
  {
    if column in c && c[column].Number? then c[column].number else current
  }

  /** What an SQL UPDATE with change set `c` does to one job row. */
  function ApplyJobChanges(row: Job, c: Changes): Job
  {
    row.(status := TextOr(c, "status", row.status),
         filePath := TextOr(c, "file_path", row.filePath),
         totalRecords := NumberOr(c, "total_records", row.totalRecords),
         processedRecords := NumberOr(c, "processed_records", row.processedRecords),
         errorMessage := TextOr(c, "error_message", row.errorMessage))
  }

  /** The change set applied to the rows whose id matches: every row keeps its id and
      position, and rows with another id are untouched. */
  function UpdateWhereId(rows: seq<Job>, id: int, c: Changes): (r: seq<Job>)
    ensures |r| == |rows|
    ensures forall k :: 0 <= k < |rows| ==> r[k].id == rows[k].id
    ensures forall k :: 0 <= k < |rows| && rows[k].id != id ==> r[k] == rows[k]
    ensures forall k :: 0 <= k < |rows| && rows[k].id == id ==> r[k] == ApplyJobChanges(rows[k], c)
  {
    seq(|rows|, k requires 0 <= k < |rows| =>
      if rows[k].id == id then ApplyJobChanges(rows[k], c) else rows[k])
  }

  /** The UPDATE the code as written issues (repository/bulkfilejobs.go:94): `.Updates`
      runs before `.Where("id = ?")` is chained, so the change set reaches every row. */
  function UpdateAllRows(rows: seq<Job>, c: Changes): (r: seq<Job>)
    ensures |r| == |rows|
    ensures forall k :: 0 <= k < |rows| ==> r[k].id == rows[k].id
  {
    seq(|rows|, k requires 0 <= k < |rows| => ApplyJobChanges(rows[k], c))
  }

  /** Marking job 1 PROCESSING as written marks job 2 PROCESSING too, while the
      id-scoped update leaves job 2 as it was. */
  lemma UnscopedUpdateTouchesOtherJobs()
    ensures var rows := [Job(1, "r1", "STUDENT", "PENDING", "a.xlsx", "", 0, 0, ""),
                         Job(2, "r2", "STUDENT", "PENDING", "b.xlsx", "", 0, 0, "")];
      var c := JobChanges(Job(1, "", "", PROCESSING, "", "", 0, 0, ""));
      && UpdateAllRows(rows, c)[1].status == PROCESSING
      && UpdateWhereId(rows, 1, c)[1] == rows[1]
  {
    var c := JobChanges(Job(1, "", "", PROCESSING, "", "", 0, 0, ""));
    assert "status" in c && c["status"] == Text(PROCESSING);
  }

  /** The change set names only the five updatable columns, each exactly when the patch
      carries a non-empty or non-zero value for it. */
  lemma JobChangesColumns(patch: Job)
    ensures JobChanges(patch).Keys <= JobUpdatableColumns
    ensures "status" in JobChanges(patch) <==> patch.status != ""
    ensures "file_path" in JobChanges(patch) <==> patch.filePath != ""
    ensures "total_records" in JobChanges(patch) <==> patch.totalRecords != 0
    ensures "processed_records" in JobChanges(patch) <==> patch.processedRecords != 0
    ensures "error_message" in JobChanges(patch) <==> patch.errorMessage != ""
    ensures forall col :: col in {"id", "request_id", "request_type", "file_name"} ==> col !in JobChanges(patch)
  {
  }

  /** Applying a patch: every updatable field takes the patch's value when that value is
      non-empty or non-zero and keeps its current value otherwise; id, request_id,
      request_type and file_name never change. */
  lemma ApplyPatchFields(row: Job, patch: Job)
    ensures var r := ApplyJobChanges(row, JobChanges(patch));
      && r.id == row.id && r.requestId == row.requestId
      && r.requestType == row.requestType && r.fileName == row.fileName
      && r.status == (if patch.status != "" then patch.status else row.status)
      && r.filePath == (if patch.filePath != "" then patch.filePath else row.filePath)
      && r.totalRecords == (if patch.totalRecords != 0 then patch.totalRecords else row.totalRecords)
      && r.processedRecords == (if patch.processedRecords != 0 then patch.processedRecords else row.processedRecords)
      && r.errorMessage == (if patch.errorMessage != "" then patch.errorMessage else row.errorMessage)
  {
  }

  /** A zero processed count or an empty error message cannot be written: a row that holds
      another value keeps it, whatever the patch. */
  lemma ZeroCannotBeWritten(row: Job, patch: Job)
    requires patch.processedRecords == 0 && patch.errorMessage == ""
    requires row.processedRecords != 0 && row.errorMessage != ""
    ensures ApplyJobChanges(row, JobChanges(patch)).processedRecords != 0
    ensures ApplyJobChanges(row, JobChanges(patch)).errorMessage != ""
  {
  }

  /** A patch that carries only an id and a status changes only the status column. */
  lemma StatusOnlyPatch(row: Job, id: int, status: string)
    requires status != ""
    ensures ApplyJobChanges(row, JobChanges(Job(id, "", "", status, "", "", 0, 0, ""))) == row.(status := status)
  {
  }

  /** The job table: rows in insertion order, ids handed out by an auto-increment counter. */
  class JobTable {
    var rows: seq<Job>
    var nextId: int
    /** The patches passed to UpdateFileUpload, in call order. */
    ghost var log: seq<Job>

    ghost predicate Valid()
      reads this
    {
      && (forall i, j :: 0 <= i < j < |rows| ==> rows[i].id < rows[j].id)
      && (forall k :: 0 <= k < |rows| ==> rows[k].id < nextId)
    }

    constructor ()
      ensures Valid() && rows == [] && log == [] && nextId == 1
    {
      rows := [];
      nextId := 1;
      log := [];
    }

    /** CreateFileUpload: insert the job; on success the table assigns the next id and
        the caller's record carries it. `dbError` is the database's answer. */
    method CreateFileUpload(job: Job, dbError: Option<string>) returns (created: Job, err: Option<string>)
      requires Valid()
      modifies this
      ensures Valid() && log == old(log)
      ensures err == dbError
      ensures dbError.None? ==> created == job.(id := old(nextId)) && rows == old(rows) + [created]
      ensures dbError.Some? ==> created == job && rows == old(rows) && nextId == old(nextId)
    {
      err := dbError;
      created := job;
      if dbError.None? {
        created := job.(id := nextId);
        rows := rows + [created];
        nextId := nextId + 1;
      }
    }

    /** UpdateFileUpload: build the change set from the patch and apply it to the row with
        the patch's id. The Go code chains `.Where("id = ?")` after `.Updates(...)`, so the
        id condition is not part of the UPDATE it issues (UpdateAllRows); this models the
        id-scoped update the code evidently intends. Database errors are not modelled
        (every caller ignores the returned error). */
    method UpdateFileUpload(patch: Job)
      requires Valid()
      modifies this
      ensures Valid() && nextId == old(nextId)
      ensures rows == UpdateWhereId(old(rows), patch.id, JobChanges(patch))
      ensures log == old(log) + [patch]
    {
      var updates: Changes := map[];
      if patch.status != "" {
        updates := updates["status" := Text(patch.status)];
      }
      if patch.filePath != "" {
        updates := updates["file_path" := Text(patch.filePath)];
      }
      if patch.totalRecords != 0 {
        updates := updates["total_records" := Number(patch.totalRecords)];
      }
      if patch.processedRecords != 0 {
        updates := updates["processed_records" := Number(patch.processedRecords)];
      }
      if patch.errorMessage != "" {
        updates := updates["error_message" := Text(patch.errorMessage)];
      }
      assert updates == JobChanges(patch);
      rows := UpdateWhereId(rows, patch.id, updates);
      log := log + [patch];
    }
  }

  predicate RequestMatches(job: Job, requestId: string)
  {
    requestId == "" || job.requestId == requestId
  }

  function JobId(job: Job): int { job.id }

  /** GetBulkFileJobs: all jobs for an empty request id, otherwise those with that
      request_id; ordered by id ascending, then OFFSET and LIMIT. */
  function GetBulkFileJobs(rows: seq<Job>, requestId: string, p: Pagination): seq<Job>
  {
    Paginate(SortBy(Filter(rows, j => RequestMatches(j, requestId)), JobId), p)
  }

  /** GetBulkFileJobCounts: the number of matching jobs; the pagination is not used. */
  function GetBulkFileJobCounts(rows: seq<Job>, requestId: string, p: Pagination): nat
  {
    |Filter(rows, j => RequestMatches(j, requestId))|
  }

  /** The listed jobs match the request id, come in ascending id order, are never more
      than the count nor than a non-negative limit (a zero limit lists nothing), and with
      a negative limit they are every matching job. */
  lemma GetBulkFileJobsSpec(rows: seq<Job>, requestId: string, p: Pagination)
    ensures var r := GetBulkFileJobs(rows, requestId, p);
      && (forall k :: 0 <= k < |r| ==> r[k] in rows && RequestMatches(r[k], requestId))
      && (forall i, j :: 0 <= i < j < |r| ==> r[i].id <= r[j].id)
      && |r| <= GetBulkFileJobCounts(rows, requestId, p)
      && (p.limit >= 0 ==> |r| <= p.limit)
      && (p.limit < 0 ==> |r| == GetBulkFileJobCounts(rows, requestId, p))
  {
    PageOfSorted(Filter(rows, j => RequestMatches(j, requestId)), JobId, p);
  }

  /** The count does not depend on the pagination. */
  lemma CountIgnoresPagination(rows: seq<Job>, requestId: string, p: Pagination, q: Pagination)
    ensures GetBulkFileJobCounts(rows, requestId, p) == GetBulkFileJobCounts(rows, requestId, q)
  {
  }

  /** The content of a stored object or local file. Uploaded sources are raw bytes; a
      workbook written by the report generator is kept as its sheet of cells. */
  datatype Blob = Bytes(data: seq<byte>) | Workbook(cells: seq<seq<Value>>)

  /** The object key UploadFileToMinio stores under: root, the unique id, a slash and
      the base name of the local path. */
  function ObjectKey(root: string, uniqueId: string, filePath: string): string
  {
    root + uniqueId + "/" + PathBase(filePath)
  }

  /** A file `dir/name` is stored under `root<uniqueId>/name`. */
  lemma ObjectKeyLayout(root: string, uniqueId: string, dir: string, name: string)
    requires name != "" && '/' !in name
    ensures ObjectKey(root, uniqueId, dir + "/" + name) == root + uniqueId + "/" + name
  {
    PathBaseOfJoin(dir, name);
  }

  /** The local file name both report generators save to and upload from. */
  const ReportFileName: string := "Report.xlsx"

  /** The public address of an uploaded object: http://server:port/bucket/key. */
  function ObjectUrl(cfg: Config, key: string): string
  {
    "http://" + cfg.server + ":" + cfg.port + "/" + cfg.bucket + "/" + key
  }

  /** A report uploaded under `root` for request `id` is published at
      http://server:port/bucket/<root><id>/Report.xlsx. */
  lemma ReportUrlLayout(cfg: Config, root: string, id: string)
    ensures ObjectUrl(cfg, ObjectKey(root, id, ReportFileName))
         == "http://" + cfg.server + ":" + cfg.port + "/" + cfg.bucket + "/" + root + id + "/" + ReportFileName
  {
    PathBaseOfName(ReportFileName);
    var pre := "http://" + cfg.server + ":" + cfg.port + "/" + cfg.bucket + "/";
    AppendAssoc(pre, root + id + "/", ReportFileName);
    AppendAssoc(pre, root + id, "/");
    AppendAssoc(pre, root, id);
  }

  lemma AppendAssoc<T>(a: seq<T>, b: seq<T>, c: seq<T>)
    ensures a + (b + c) == (a + b) + c
  {
  }

  /** The object store (buckets of keyed objects) together with the local file system
      the Go code stages files in. */
  class BlobStore {
    var objects: map<(string, string), Blob>
    var local: map<string, Blob>

    constructor (objects: map<(string, string), Blob>, local: map<string, Blob>)
      ensures this.objects == objects && this.local == local
    {
      this.objects := objects;
      this.local := local;
    }

    /** UploadFileToMinio: put the local file under ObjectKey(root, uniqueId, filePath)
        and remove the local file whether or not the put succeeded. The key is returned
        on success; the zero-valued upload info gives the empty key on failure.
        `putError` is the object store's answer to a put of an existing file. */
    method UploadFileToMinio(filePath: string, bucket: string, root: string, uniqueId: string,
                             putError: Option<string>) returns (key: string, err: Option<string>)
      modifies this
      ensures local == old(local) - {filePath}
      ensures filePath in old(local) && putError.None? ==>
        && key == ObjectKey(root, uniqueId, filePath) && err.None?
        && objects == old(objects)[(bucket, key) := old(local)[filePath]]
      ensures filePath in old(local) && putError.Some? ==> key == "" && err == putError && objects == old(objects)
      ensures filePath !in old(local) ==>
        key == "" && err == Some("open " + filePath + ": no such file or directory") && objects == old(objects)
    {
      if filePath !in local {
        key, err := "", Some("open " + filePath + ": no such file or directory");
      } else if putError.Some? {
        key, err := "", putError;
      } else {
        key, err := ObjectKey(root, uniqueId, filePath), None;
        objects := objects[(bucket, key) := local[filePath]];
      }
      local := local - {filePath};
    }
  }

  /** GetFileFromActiveServer, reduced to its content: the object under (bucket, key), or
      an error when there is none. */
  function FetchObject(objects: map<(string, string), Blob>, bucket: string, key: string): Option<Blob>
  {
    if (bucket, key) in objects then Some(objects[(bucket, key)]) else None
  }

  const ProcessingQueue: string := "async-file-processing-queue"

  /** One AMQP publish: exchange, routing key, mandatory, immediate, delivery mode,
      content type and body. The JSON body is represented by the job it encodes. */
  datatype Publishing = Publishing(
    exchange: string,
    routingKey: string,
    mandatory: bool,
    immediate: bool,
    deliveryMode: int,
    contentType: string,
    body: Job)

  /** What SubmitToRabbitMQ publishes; its queueName argument plays no part. */
  function PublishingFor(job: Job, queueName: string): Publishing
  {
    Publishing("", ProcessingQueue, false, false, 2, "text/plain", job)
  }

  /** Every submission goes to the default exchange with routing key
      "async-file-processing-queue", persistent delivery (mode 2) and the job as body,
      whatever queue name the caller passes. */
  lemma PublishTarget(job: Job, queueName: string, other: string)
    ensures PublishingFor(job, queueName) == PublishingFor(job, other)
    ensures PublishingFor(job, queueName).routingKey == ProcessingQueue
    ensures PublishingFor(job, queueName).exchange == ""
    ensures PublishingFor(job, queueName).deliveryMode == 2
    ensures PublishingFor(job, queueName).body == job
  {
  }

  /** The message broker: the messages published so far. */
  class MessageQueue {
    var published: seq<Publishing>

    constructor ()
      ensures published == []
    {
      published := [];
    }

    /** SubmitToRabbitMQ: publish the job; `publishError` is the broker's answer. */
    method SubmitToRabbitMQ(job: Job, queueName: string, publishError: Option<string>) returns (err: Option<string>)
      modifies this
      ensures err == publishError
      ensures published == old(published) + (if publishError.None? then [PublishingFor(job, queueName)] else [])
    {
      err := publishError;
      if publishError.None? {
        published := published + [PublishingFor(job, queueName)];
      }
    }
  }
}
