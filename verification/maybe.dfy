/** The optional value Python code expresses by returning `None`. */
module Maybe {

  datatype Option<+T> = None | Some(value: T)
}
