/** An optional value, for the source's null results, error codes and exceptions. */
module Options {

  datatype Option<T> = None | Some(value: T)
}
