// Vocabulary shared by the models of the API and of the worker.
module Wrappers {

  datatype Option<+T> = None | Some(value: T)

  // The status column of the jobs table.
  datatype JobStatus =
    | Queued
    | Scheduled
    | Claimed
    | Running
    | Completed
    | Failed
    | DeadLetter
    | Cancelled
}
