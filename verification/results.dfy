/** Failure-carrying values shared by the reader: a Java `null` becomes `None`,
    and a Java exception raised by malformed disk contents becomes `Err`. */
module Results {

  datatype Option<+T> = None | Some(value: T)

  datatype Result<+T, +E> = Ok(value: T) | Err(error: E)
}
