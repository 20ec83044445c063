/** Tiles of linear domino (the `Tile` record of lib.c) and the three special tiles. */
module Tiles {

  /** A domino tile: a left and a right face value, plain C `int`s. */
  datatype Tile = Tile(left: int, right: int)

  /** The wildcard tile: it matches any exposed end. */
  const Wildcard := Tile(0, 0)

  /** The increment tile: playing it adds 1 to both values of every tile on the field. */
  const Increment := Tile(11, 11)

  /** The mirror tile: playing it inserts the reverse of the adjacent end tile. */
  const Mirror := Tile(12, 21)

  /** One of the three special tiles, which are legal at any end. */
  predicate IsSpecial(t: Tile)
  {
    t == Wildcard || t == Increment || t == Mirror
  }

  /** The ends a move may name: 'S' (first tile), 'L' (left end), 'R' (right end). */
  predicate IsEnd(pos: char)
  {
    pos == 'S' || pos == 'L' || pos == 'R'
  }
}
