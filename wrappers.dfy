/** The optional value used wherever the source uses `Option` (a `pop`, a missing resource). */
module Wrappers {
  datatype Option<+T> = None | Some(value: T)
}
