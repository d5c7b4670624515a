/** The optional value used wherever the Python code holds `Optional[...]` or `None`. */
module Options {

  datatype Option<+T> = None | Some(value: T)

}
