/** The absent-or-present value that stands in for Java's `null` returns. */
module Options {

  /** `None` plays the role of a `null` result; `Some(v)` of a non-null one. */
  datatype Option<+T> = None | Some(value: T)
}
