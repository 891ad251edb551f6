/** Nullable references of the game (a tile's tower, a turret's target, the
    pending purchase) are modelled as an Option; an operation that can throw
    returns a Result. */
module Wrappers {

  datatype Option<+T> = None | Some(value: T)

  datatype Result<+T, +E> = Success(value: T) | Failure(error: E)
}
