/** The uniform response shape of the data-access layer: every operation answers
    with a success payload or a failure message and never raises. */
module Results {

  /** A possibly-absent value; stands for Python's `None`. */
  datatype Option<+T> = None | Some(value: T)

  /** `{"success": True, ...}` carries a payload, `{"success": False, "message": m}` a message. */
  datatype Result<+T> = Ok(value: T) | Fail(message: string)
}
