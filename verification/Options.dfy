/** Values that may be missing: the source's nil results and unset fields. */
module Options {
  datatype Option<+T> = None | Some(value: T)
}
