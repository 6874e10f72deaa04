/** Result shapes shared by the three list packages. */
module ListTypes {

  /** What a query that returns a `*node` (nil when there is none) yields:
      the node's data, or None where the Go code returns nil. */
  datatype Option<T> = None | Some(value: T)

  /** What an operation that may `panic` yields: its value, or the panic
      message the Go code raises. */
  datatype Result<T> = Ok(value: T) | Panic(message: string)
}
