/** The optional value used where the exercise code writes `T | null`. */
module Optional {

  /** `None` stands for JavaScript `null`; `Some(v)` for a present value. */
  datatype Option<+T> = None | Some(value: T)
}
