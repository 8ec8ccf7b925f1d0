/** The optional value used where the game returns `Option` or Bevy keeps a pending value. */
module Wrappers {
  datatype Option<+T> = None | Some(value: T)
}
