/** The optional value the game passes around where the program uses `None`. */
module Wrappers {
  datatype Option<+T> = None | Some(value: T)
}
