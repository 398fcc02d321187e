/** The optional value shared by every module: a missing JSON field, a null column, an
    unparsable date. */
module Options {
  datatype Option<T> = None | Some(value: T)
}
