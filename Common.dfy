/** Values shared by every layer: optional values, the `(err, result)` pair
    handed to a callback, and which database statement of a request fails. */
module Common {

  datatype Option<+T> = None | Some(value: T)

  /** What a view-model callback receives: `callback(null, value)` or
      `callback({ error: message }, null)`. Only the `error` message is kept;
      the `details` of the database error are not modelled. */
  datatype Result<+T> = Ok(value: T) | Err(error: string)

  /** The database is an external collaborator that may fail any statement.
      `FailAt(k)` says that the k-th statement (counted from 0) issued while
      handling one request fails; a failed statement changes nothing. */
  datatype Fault = NoFault | FailAt(step: nat)

  /** True when the database answers the `step`-th statement of the request. */
  predicate Answers(fault: Fault, step: nat) {
    fault != FailAt(step)
  }
}
