/** The "value or nothing" result the graph uses where the source returns null. */
module Options {

  datatype Option<+T> = None | Some(value: T)

}
