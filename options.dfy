/** A value that may be missing: pandas' NaN becomes None. */
module Options {

  datatype Option<+T> = None | Some(value: T)
}
