/** The optional value returned by the source's lookups (`findIndex` yielding -1, `find` yielding undefined). */
module Options {
  datatype Option<T> = None | Some(value: T)
}
