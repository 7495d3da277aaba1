/** Failure-carrying datatypes shared by every module of the model.
    `Option` stands for a JavaScript value that may be `undefined`;
    `Result` stands for an operation that either succeeds or is answered
    with an error (an HTTP error response or a thrown exception). */
module Results {

  datatype Option<+T> = None | Some(value: T)

  datatype Result<+T, +E> = Ok(value: T) | Err(error: E)

  /** A user's id; the source's `ObjectId` is modelled as a number. */
  type UserId = nat

  /** JavaScript truthiness of an optional string: present and not empty. */
  predicate Truthy(s: Option<string>) {
    s.Some? && s.value != ""
  }
}
