/** The value types the game engine works with: headings, grid coordinates
    and the kinds of cell a grid can report. */
module Geometry {

  /** The four headings the snake can take. */
  datatype Direction = Up | Down | Left | Right {

    /** The heading that points the other way. */
    function Opposite(): (d: Direction)
      ensures d != this
    {
      match this
      case Up => Down
      case Down => Up
      case Left => Right
      case Right => Left
    }

    /** Row displacement of one step in this heading (rows grow downwards). */
    function RowOffset(): int
    {
      match this
      case Up => -1
      case Down => 1
      case Left => 0
      case Right => 0
    }

    /** Column displacement of one step in this heading. */
    function ColumnOffset(): int
    {
      match this
      case Up => 0
      case Down => 0
      case Left => -1
      case Right => 1
    }
  }

  /** A (row, column) coordinate; equality is by value. */
  datatype Position = Position(row: int, column: int) {

    /** The neighbouring coordinate one step away in heading `d`. */
    function Translate(d: Direction): (p: Position)
      ensures p != this
    {
      Position(row + d.RowOffset(), column + d.ColumnOffset())
    }
  }

  /** What a grid cell holds. `Outside` is never stored in the grid: it is
      only the answer for a coordinate beyond the grid's edge. */
  datatype GridValue = Empty | Snake | Food | Outside
}
