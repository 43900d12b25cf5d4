/** One location of the tetris well: a status mark, a colour tag and the
    fixed coordinates the location was created with (TetrisCell.java). */
module TetrisCell {

  /** The three status marks. The mark itself is a plain integer, as in the
      source: `SetMark` accepts any value and no transition is checked. */
  const EMPTY: int := 0
  const ACTIVE: int := 1
  const INACTIVE: int := -1

  /** Colour tags. The concrete pixel values play no part in the game logic;
      `NoColor` stands for the null colour a freshly built cell carries. */
  datatype Color = NoColor | Black | Orange | Red | Cyan | Magenta | Yellow | Blue | Green

  /** The colour an empty cell is painted with. */
  const COLOR_EMPTY: Color := Black

  class Cell {
    const row: int
    const col: int
    var mark: int
    var color: Color

    /** A new cell is empty, keeps the coordinates it is given and has no colour yet. */
    constructor (row: int, col: int)
      ensures this.row == row && this.col == col
      ensures mark == EMPTY && color == NoColor
    {
      this.row := row;
      this.col := col;
      mark := EMPTY;
      color := NoColor;
    }

    /** Replaces the mark and hands back the one held before; the colour is untouched. */
    method SetMark(m: int) returns (previous: int)
      modifies this
      ensures mark == m && previous == old(mark)
      ensures color == old(color)
    {
      previous := mark;
      mark := m;
    }

    /** Replaces the colour; the mark is untouched. */
    method SetColor(c: Color)
      modifies this
      ensures color == c && mark == old(mark)
    {
      color := c;
    }

    predicate IsEmpty()
      reads this
    {
      mark == EMPTY
    }

    predicate IsActive()
      reads this
    {
      mark == ACTIVE
    }

    predicate IsInactive()
      reads this
    {
      mark == INACTIVE
    }
  }
}
