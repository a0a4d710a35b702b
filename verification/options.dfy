/** An optional value: the result of a search that may find nothing, or of a
    scan that may run past the end of its input. */
module Options {

  datatype Option<+T> = None | Some(value: T)
}
