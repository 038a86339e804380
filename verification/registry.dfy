/**
  The process-wide task registry of app/api/products.py: the `progress_store`
  and `cancel_flags` dictionaries, the upload admission check, the status
  classifier, cancellation and the eviction step of the progress stream.
*/
module Registry {
  import opened Wrappers
  import opened Http
  import Text

  /** A task identifier (the text of a uuid4). */
  type TaskId = string

  /**
    The `status` text of a progress record. The numbers a message interpolates
    are kept; the text formatting around them is not modelled.
  */
  datatype Status =
    | Starting                                          // "Starting..."
    | LoadingCsv                                        // "Loading CSV..."
    | Preprocessing                                     // "Preprocessing data..."
    | Processing(done: nat, total: nat, imported: nat)  // "Processing... {done}/{total} ({imported} imported)"
    | Completed(imported: nat)                          // "Completed! {imported} products imported"
    | CancelledByUser                                   // "Cancelled by user"
    | Cancelling                                        // "Cancelling..."
    | Error(message: string)                            // "Error: {message}"

  /**
    One value of `progress_store`: a dictionary whose `progress`, `status`
    and `completed` keys are always present and whose other keys are optional.
  */
  datatype Record = Record(
    progress: nat,
    status: Status,
    completed: bool,
    imported: Option<nat>,
    total: Option<nat>,
    current: Option<nat>,
    error: Option<bool>,
    cancelled: Option<bool>)

  // The records the upload route and the importer write.

  function StartRecord(): Record {
    Record(0, Starting, false, None, None, None, None, None)
  }

  function LoadingRecord(): Record {
    Record(5, LoadingCsv, false, None, None, None, None, None)
  }

  function PreprocessingRecord(): Record {
    Record(10, Preprocessing, false, None, None, None, None, None)
  }

  function BatchRecord(progress: nat, done: nat, total: nat, imported: nat): Record {
    Record(progress, Processing(done, total, imported), false, None, None, None, None, None)
  }

  function CancelledRecord(): Record {
    Record(0, CancelledByUser, true, None, None, None, None, Some(true))
  }

  function CompletedRecord(imported: nat): Record {
    Record(100, Completed(imported), true, Some(imported), None, None, None, None)
  }

  function ErrorRecord(message: string): Record {
    Record(0, Error(message), true, None, None, None, Some(true), None)
  }

  /** The Celery-like answer of `GET /task/{id}`. */
  datatype TaskState =
    | Failed(result: bool)                                          // "FAILURE"
    | Succeeded(imported: nat, total: nat)                          // "SUCCESS"
    | InProgress(progress: nat, current: nat, total: nat, status: Status)  // "PROGRESS"

  /** The classification `get_task_status` applies to a stored record. */
  function Classify(data: Record): (s: TaskState)
    ensures s.Failed? <==> data.completed && data.error.Some?
    ensures s.Succeeded? <==> data.completed && data.error.None?
    ensures s.InProgress? <==> !data.completed
    ensures s.Failed? ==> s.result == data.error.value
    ensures s.Succeeded? ==> s.imported == data.imported.GetOr(0) && s.total == data.total.GetOr(0)
    ensures s.InProgress? ==>
      s == InProgress(data.progress, data.current.GetOr(0), data.total.GetOr(0), data.status)
  {
    if data.completed then
      if data.error.Some? then Failed(data.error.value)
      else Succeeded(data.imported.GetOr(0), data.total.GetOr(0))
    else InProgress(data.progress, data.current.GetOr(0), data.total.GetOr(0), data.status)
  }

  /**
    What a poller sees for each record the system writes. No writer sets the
    `total` key, so a successful import always reports a total of 0, and a
    cancelled record reads as a success with nothing imported.
  */
  lemma ClassifyWrittenRecords(imported: nat, message: string)
    ensures Classify(StartRecord()) == InProgress(0, 0, 0, Starting)
    ensures Classify(CompletedRecord(imported)) == Succeeded(imported, 0)
    ensures Classify(CancelledRecord()) == Succeeded(0, 0)
    ensures Classify(ErrorRecord(message)) == Failed(true)
  {
  }

  /** The store after `cancel_task` marks a record: only its status changes, and no record is created. */
  function MarkCancelling(store: map<TaskId, Record>, id: TaskId): (s: map<TaskId, Record>)
    ensures s.Keys == store.Keys
    ensures forall t :: t in store && t != id ==> s[t] == store[t]
    ensures id in store ==> s[id] == store[id].(status := Cancelling)
  {
    if id in store then store[id := store[id].(status := Cancelling)] else store
  }

  /** Marking a record twice is marking it once. */
  lemma MarkCancellingIdempotent(store: map<TaskId, Record>, id: TaskId)
    ensures MarkCancelling(MarkCancelling(store, id), id) == MarkCancelling(store, id)
  {
  }

  class TaskRegistry {
    /** `progress_store`: task id to its latest record. */
    var progress: map<TaskId, Record>
    /** `cancel_flags`: task id to whether a cancel was requested. */
    var cancelFlags: map<TaskId, bool>

    constructor ()
      ensures progress == map[] && cancelFlags == map[]
    {
      progress := map[];
      cancelFlags := map[];
    }

    /** `progress_store[id] = record`. */
    method Put(id: TaskId, record: Record)
      modifies this
      ensures progress == old(progress)[id := record]
      ensures cancelFlags == old(cancelFlags)
    {
      progress := progress[id := record];
    }

    /**
      `POST /upload-direct`: a file name not ending in ".csv" is refused with
      400 before anything is stored; otherwise a start record is stored under
      `taskId` (the fresh uuid4) and the import is handed to the worker pool.
      `saveError` is the failure, if any, of saving the upload to a temporary
      file, which turns the record into an error record and answers 500.
    */
    method UploadFileDirect(filename: string, taskId: TaskId, saveError: Option<string>)
      returns (r: Result<TaskId, HttpError>)
      modifies this
      ensures cancelFlags == old(cancelFlags)
      ensures !Text.EndsWith(filename, ".csv") ==>
        r == Failure(HttpError(BadRequest, "Only CSV files allowed")) && progress == old(progress)
      ensures Text.EndsWith(filename, ".csv") && saveError.None? ==>
        r == Success(taskId) && progress == old(progress)[taskId := StartRecord()]
      ensures Text.EndsWith(filename, ".csv") && saveError.Some? ==>
        && r == Failure(HttpError(ServerError, "Upload failed: " + saveError.value))
        && progress == old(progress)[taskId := ErrorRecord(saveError.value)]
    {
      if !Text.EndsWith(filename, ".csv") {
        return Failure(HttpError(BadRequest, "Only CSV files allowed"));
      }
      progress := progress[taskId := StartRecord()];
      if saveError.Some? {
        progress := progress[taskId := ErrorRecord(saveError.value)];
        return Failure(HttpError(ServerError, "Upload failed: " + saveError.value));
      }
      r := Success(taskId);
    }

    /** `GET /task/{id}`: 404 for an unknown task, else the classified record; reads only. */
    function TaskStatus(id: TaskId): (r: Result<TaskState, HttpError>)
      reads this
      ensures r.Failure? <==> id !in progress
      ensures r.Failure? ==> r.error == HttpError(NotFound, "Task not found")
      ensures r.Success? ==> r.value == Classify(progress[id])
    {
      if id !in progress then Failure(HttpError(NotFound, "Task not found"))
      else Success(Classify(progress[id]))
    }

    /**
      `POST /cancel/{id}`: always raises the flag, known task or not, and
      only relabels an existing record; the answer is always "cancelled".
    */
    method CancelTask(id: TaskId) returns (answer: string)
      modifies this
      ensures cancelFlags == old(cancelFlags)[id := true]
      ensures progress == MarkCancelling(old(progress), id)
      ensures answer == "cancelled"
    {
      cancelFlags := cancelFlags[id := true];
      if id in progress {
        progress := progress[id := progress[id].(status := Cancelling)];
      }
      answer := "cancelled";
    }

    /**
      One turn of the server-sent-event loop of `GET /progress/{id}`: while
      the task is known its record is sent; a record marked completed is
      removed right after it has been sent, and the stream ends.
    */
    method StreamStep(id: TaskId) returns (sent: Option<Record>, more: bool)
      modifies this
      ensures cancelFlags == old(cancelFlags)
      ensures id !in old(progress) ==> sent == None && !more && progress == old(progress)
      ensures id in old(progress) ==> sent == Some(old(progress)[id])
      ensures id in old(progress) && old(progress)[id].completed ==> !more && progress == old(progress) - {id}
      ensures id in old(progress) && !old(progress)[id].completed ==> more && progress == old(progress)
      ensures id in old(progress) && id !in progress ==> sent.Some? && sent.value.completed
    {
      if id !in progress {
        return None, false;
      }
      var data := progress[id];
      sent := Some(data);
      if data.completed {
        progress := progress - {id};
        more := false;
      } else {
        more := true;
      }
    }
  }
}
