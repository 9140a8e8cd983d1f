/** The Some/None datatype that stands for a nullable or absent value. */
module Options {
  datatype Option<+T> = None | Some(value: T)
}
