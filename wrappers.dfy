/** The optional value that `find_best_move` returns (`None` or a move). */
module Wrappers {

  datatype Option<+T> = None | Some(value: T)
}
