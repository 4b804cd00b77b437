// Optional values and results, used wherever the source returns a value
// together with an error or a nil.
module Common {

  datatype Option<T> = None | Some(value: T)

  datatype Result<T, E> = Ok(value: T) | Err(error: E)
}
