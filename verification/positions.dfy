/** Player moves and grid coordinates shared by the drainer and the grid. */
module Positions {
  import opened Ints
  import opened Options

  /** The four directions of `PlayerMove`, in declaration order. */
  datatype PlayerMove = Up | Down | Left | Right

  /** A (row, col) pair of `int8_t`; the fields are public and may be assigned freely. */
  datatype GridPosition = GridPosition(row: Int8, col: Int8)

  /** The `GridPosition` constructor, which asserts that both coordinates are
      non-negative; `None` is the abort of a failed assertion. */
  function MakePosition(initialRow: Int8, initialCol: Int8): (r: Option<GridPosition>)
    ensures r.Some? <==> initialRow >= 0 && initialCol >= 0
    ensures r.Some? ==> r.value.row == initialRow && r.value.col == initialCol
  {
    if initialRow >= 0 && initialCol >= 0 then Some(GridPosition(initialRow, initialCol)) else None
  }
}
