/** Small value wrappers shared by the modules of this model. */
module Common {

  /** A value that may be absent: a null shared pointer, a reset weak reference. */
  datatype Option<+T> = None | Some(value: T)
}
