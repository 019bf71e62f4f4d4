/** The optional value shared by the whole model: a missing child or node, an absent
    error, a snapshot not yet taken. */
module Options {
  datatype Option<T> = None | Some(value: T)
}
