/** The optional value used for empty grid cells, the absent active piece and the
    piece position that is unset until the piece is placed. */
module Wrappers {

  datatype Option<+T> = None | Some(value: T)
}
