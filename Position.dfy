/** A cell coordinate of the board: row `i`, column `j`. As a datatype it is
    immutable, its destructors `i` and `j` (the getters getI and getJ) return
    exactly what it was built from, and any pair of integers is accepted:
    keeping a Position inside the board is the caller's concern. */
module Positions {

  datatype Position = Position(i: int, j: int)
}
