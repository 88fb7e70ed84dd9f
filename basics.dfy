/** Constants and small datatypes shared by every part of the Snake Ludo model. */
module Basics {

  /** Cells 0..100 of the board; index 0 is home and is never a board cell. */
  const BoardSize: int := 101

  /** The finishing cell. */
  const Finish: int := 100

  /** Largest number of players; the players segment has one more slot for the active count. */
  const MaxPlayers: int := 26

  datatype Option<+T> = None | Some(value: T)
}
