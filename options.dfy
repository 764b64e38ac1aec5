/** The optional value used wherever the analyser has `None`. */
module Options {

  datatype Option<T> = None | Some(value: T)

}
