/** Values shared by the data layer and the handlers: optional values, the
    errors the data layer reports, and the outcomes of the storage calls that
    the model takes as parameters. */
module Outcomes {

  datatype Option<T> = None | Some(value: T)

  /** The errors that reach the handlers. RecordNotFound is the data layer's
      ErrRecordNotFound; DbFailure is any other storage error (connectivity,
      constraint, scan), carrying the driver's message. InvalidIdParameter
      and MalformedBody are the request-reading errors answered with 400. */
  datatype Error =
    | RecordNotFound
    | DbFailure(reason: string)
    | InvalidIdParameter
    | MalformedBody

  datatype Result<T> = Ok(value: T) | Err(error: Error)

  /** What the storage collaborator does when each call of one request is
      issued: None means the call succeeds, Some(reason) means it fails with
      that message and writes nothing. */
  datatype Faults = Faults(
    attemptLookup: Option<string>,
    attemptInsert: Option<string>,
    guessList: Option<string>,
    guessInsert: Option<string>,
    attemptUpdate: Option<string>)
}
