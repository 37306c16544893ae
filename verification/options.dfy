/** An optional value, used for the inactive anchor sentinel and for the cursor cache. */
module Options {

  /** `None` is the absence of a value; `Some(v)` carries `v`. */
  datatype Option<+T> = None | Some(value: T)
}
