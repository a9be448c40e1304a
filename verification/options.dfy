/** An optional value, used for the partial inverses (parsers) of the model. */
module Options {

  datatype Option<+T> = None | Some(value: T)

}
