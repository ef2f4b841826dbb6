/** The optional-value datatype used throughout the model: a regular-expression
    search that may fail, a position that may not exist. */
module Options {

  datatype Option<+T> = None | Some(value: T)
}
