/** A tile of the board: the letter shown and its classification. */
module Tiles {

  /** The five tile states the board uses. Two tiles are in the same state
      exactly when their states are equal. */
  datatype State = Empty | Occupied | Correct | WrongSpot | Incorrect

  datatype Tile = Tile(letter: char, state: State)

  /** What ClearBoard and Backspace leave in a tile. */
  const EmptyTile := Tile('\0', Empty)

  /** A key the board accepts: SUPPORTED_KEYS holds KeyCode.A .. KeyCode.Z,
      whose character values are 'a' .. 'z'. */
  predicate IsLetter(c: char) { 'a' <= c <= 'z' }

  /** A state the scoring passes hand out. */
  predicate IsScored(s: State) { s == Correct || s == WrongSpot || s == Incorrect }

  /** A tile that counts against the secret's letters. */
  predicate IsMatch(s: State) { s == Correct || s == WrongSpot }
}
