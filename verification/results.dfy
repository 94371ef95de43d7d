/** Failure-carrying datatypes shared by the model: a JavaScript value that may be
    `null`/`undefined` becomes an `Option`, and a step that may throw becomes a `Result`
    whose failure carries the thrown error's message. */
module Results {

  datatype Option<+T> = None | Some(value: T)

  datatype Result<+T> = Ok(value: T) | Err(message: string)
}
