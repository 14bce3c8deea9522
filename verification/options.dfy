/** The optional value Java expresses with `null`. */
module Options {

  datatype Option<+T> = None | Some(value: T)
}
