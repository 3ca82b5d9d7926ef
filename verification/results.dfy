/** The optional value and the outcome-or-error shapes used wherever the
    program returns "nothing" or raises. */
module Results {
  datatype Option<T> = None | Some(value: T)

  datatype Result<T, E> = Ok(value: T) | Err(error: E)
}
