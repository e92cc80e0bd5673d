/** The optional value of the mixer model. */
module Wrappers {

  /** A value that may be absent. The model uses it where the C code returns
      the sentinel -1 (no matching item) and for the saved mute volume, which
      has no value before the first mute. */
  datatype Option<+T> = None | Some(value: T)
}
