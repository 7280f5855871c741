/** The optional value used wherever the importer accepts `None`. */
module Options {

  datatype Option<+T> = None | Some(value: T)

}
