/** The optional value used by the matchers and readers of this model. */
module Options {

  datatype Option<+T> = None | Some(value: T)
}
