/** Java's `null` results and thrown exceptions are modelled as `None`. */
module Optional {
  datatype Option<+T> = None | Some(value: T)
}
