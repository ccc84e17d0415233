/** An optional value, used for error returns (Go's `err != nil`) and optional results. */
module Options {

  datatype Option<+T> = None | Some(value: T)

}
