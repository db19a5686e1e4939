/** The small failure-carrying types the handlers return. */
module Wrappers {

  datatype Option<T> = None | Some(value: T)

  /** The errors a handler rethrows to the queue. */
  datatype Error =
    | ArchiveUnreadable  // the archive cannot be opened or extracted
    | StoreError         // a database statement failed
    | QueueError         // adding a work item failed
    | ConversionError    // the converter call or writing its output failed

  /** How a queue handler's promise settles: resolved, or rejected with an error. */
  datatype Outcome = Pass | Fail(error: Error)
}
