/** The player's cursor on the grid, the "Drainer", as the C++ code is written:
    the `switch` in `move` has no `break`, so every case falls through into the
    ones below it, and each upper clamp is the bound itself rather than bound - 1. */
module Drainers {
  import opened Ints
  import opened Options
  import opened Positions

  datatype Drainer = Drainer(position: GridPosition, gridWidth: Int8, gridHeight: Int8)

  /** The constructor: it builds the position first (whose own assertions
      require non-negative coordinates) and then asserts positive bounds. */
  function NewDrainer(initialRow: Int8, initialCol: Int8, gridWidth: Int8, gridHeight: Int8): (r: Option<Drainer>)
    ensures r.Some? <==> initialRow >= 0 && initialCol >= 0 && gridWidth > 0 && gridHeight > 0
    ensures r.Some? ==> Valid(r.value) && InGridBounds(r.value) == (initialRow <= gridHeight && initialCol <= gridWidth)
    ensures r.Some? ==> r.value.position == GridPosition(initialRow, initialCol)
    ensures r.Some? ==> r.value.gridWidth == gridWidth && r.value.gridHeight == gridHeight
  {
    match MakePosition(initialRow, initialCol)
    case None => None
    case Some(p) =>
      if gridWidth > 0 && gridHeight > 0 then Some(Drainer(p, gridWidth, gridHeight)) else None
  }

  /** What the constructor's assertions establish. */
  predicate Valid(d: Drainer) {
    && d.position.row >= 0 && d.position.col >= 0
    && d.gridWidth > 0 && d.gridHeight > 0
  }

  /** The bounds `move` actually keeps: the bound itself is reachable. */
  predicate InGridBounds(d: Drainer) {
    0 <= d.position.row <= d.gridHeight && 0 <= d.position.col <= d.gridWidth
  }

  /** The cells of the grid: rows 0 .. height - 1 and columns 0 .. width - 1. */
  predicate OnCell(d: Drainer) {
    0 <= d.position.row < d.gridHeight && 0 <= d.position.col < d.gridWidth
  }

  /** Where control enters the `switch`; it then runs this case and all below it. */
  function CaseIndex(m: PlayerMove): nat {
    match m
    case Up => 0
    case Down => 1
    case Left => 2
    case Right => 3
  }

  /** `Drainer::move`: the four assignments of the `switch`, each run when control
      entered at or above it, each storing an `int` result back into an `int8_t`. */
  function Move(d: Drainer, m: PlayerMove): (r: Drainer)
    ensures r.gridWidth == d.gridWidth && r.gridHeight == d.gridHeight
    ensures m == Up ==> r.position.row == Min(d.gridHeight, Max(0, d.position.row - 1) + 1)
    ensures m == Down ==> r.position.row == Min(d.gridHeight, d.position.row + 1)
    ensures m == Left || m == Right ==> r.position.row == d.position.row
    ensures m != Right ==> r.position.col == Min(d.gridWidth, Max(0, d.position.col - 1) + 1)
    ensures m == Right ==> r.position.col == Min(d.gridWidth, d.position.col + 1)
  {
    var entry := CaseIndex(m);
    var row1 := if entry <= 0 then ToInt8(Max(0, d.position.row - 1)) else d.position.row;
    var row2 := if entry <= 1 then ToInt8(Min(d.gridHeight, row1 + 1)) else row1;
    var col1 := if entry <= 2 then ToInt8(Max(0, d.position.col - 1)) else d.position.col;
    var col2 := ToInt8(Min(d.gridWidth, col1 + 1));
    d.(position := GridPosition(row2, col2))
  }

  /** A sequence of moves, applied in order. */
  function MoveAll(d: Drainer, ms: seq<PlayerMove>): Drainer
    decreases |ms|
  {
    if ms == [] then d else MoveAll(Move(d, ms[0]), ms[1..])
  }

  /** Because LEFT falls through into RIGHT, LEFT leaves the column where it was
      exactly when it lies in 1 .. width. */
  lemma MoveLeftKeepsColumn(d: Drainer)
    requires Valid(d)
    ensures Move(d, Left).position.col == d.position.col <==> 1 <= d.position.col <= d.gridWidth
    ensures Move(d, Left).position.row == d.position.row
  {
  }

  /** UP falls through into DOWN, LEFT and RIGHT: the row is kept exactly when it
      lies in 1 .. height, and the column is updated as LEFT updates it. */
  lemma MoveUpKeepsRow(d: Drainer)
    requires Valid(d)
    ensures Move(d, Up).position.row == d.position.row <==> 1 <= d.position.row <= d.gridHeight
    ensures Move(d, Up).position.col == Move(d, Left).position.col
  {
  }

  /** One move keeps a drainer valid and inside 0 .. bound (inclusive) on both axes. */
  lemma MoveStaysInBounds(d: Drainer, m: PlayerMove)
    requires Valid(d) && InGridBounds(d)
    ensures Valid(Move(d, m)) && InGridBounds(Move(d, m))
  {
  }

  /** Any sequence of moves keeps the drainer inside 0 .. bound and never changes
      the bounds captured by the constructor. */
  lemma {:induction false} MoveAllStaysInBounds(d: Drainer, ms: seq<PlayerMove>)
    requires Valid(d) && InGridBounds(d)
    ensures Valid(MoveAll(d, ms)) && InGridBounds(MoveAll(d, ms))
    ensures MoveAll(d, ms).gridWidth == d.gridWidth && MoveAll(d, ms).gridHeight == d.gridHeight
    decreases |ms|
  {
    if ms != [] {
      MoveStaysInBounds(d, ms[0]);
      MoveAllStaysInBounds(Move(d, ms[0]), ms[1..]);
    }
  }

  /** From the last row, DOWN reaches row == height, which names no cell. */
  lemma MoveDownLeavesGrid(d: Drainer)
    requires Valid(d) && d.position.row == d.gridHeight - 1
    ensures Move(d, Down).position.row == d.gridHeight
    ensures !OnCell(Move(d, Down))
  {
  }

  /** The scenario "from (0,0) in a 4x4 grid, UP then LEFT stays at (0,0)" ends at (1,1). */
  lemma UpLeftFromCornerAsWritten()
    ensures MoveAll(Drainer(GridPosition(0, 0), 4, 4), [Up, Left]).position == GridPosition(1, 1)
  {
  }

  /** The move the comments and the grid's indexing call for: one axis changes by
      at most one, clamped to 0 .. bound - 1. */
  function MoveIntended(d: Drainer, m: PlayerMove): (r: Drainer)
    requires Valid(d)
    ensures r.gridWidth == d.gridWidth && r.gridHeight == d.gridHeight
    ensures m == Up || m == Down ==> r.position.col == d.position.col
    ensures m == Left || m == Right ==> r.position.row == d.position.row
    ensures m == Up ==> r.position.row == Max(0, d.position.row - 1)
    ensures m == Left ==> r.position.col == Max(0, d.position.col - 1)
    ensures m == Down ==> r.position.row == Min(d.gridHeight - 1, d.position.row + 1)
    ensures m == Right ==> r.position.col == Min(d.gridWidth - 1, d.position.col + 1)
  {
    match m
    case Up => d.(position := d.position.(row := ToInt8(Max(0, d.position.row - 1))))
    case Down => d.(position := d.position.(row := ToInt8(Min(d.gridHeight - 1, d.position.row + 1))))
    case Left => d.(position := d.position.(col := ToInt8(Max(0, d.position.col - 1))))
    case Right => d.(position := d.position.(col := ToInt8(Min(d.gridWidth - 1, d.position.col + 1))))
  }

  function MoveAllIntended(d: Drainer, ms: seq<PlayerMove>): Drainer
    requires Valid(d)
    decreases |ms|
  {
    if ms == [] then d else MoveAllIntended(MoveIntended(d, ms[0]), ms[1..])
  }

  /** The intended move keeps a drainer that starts on a cell on a cell. */
  lemma MoveIntendedStaysOnCell(d: Drainer, m: PlayerMove)
    requires Valid(d) && OnCell(d)
    ensures Valid(MoveIntended(d, m)) && OnCell(MoveIntended(d, m))
  {
  }

  /** Any sequence of intended moves keeps the drainer on a cell. */
  lemma {:induction false} MoveAllIntendedStaysOnCell(d: Drainer, ms: seq<PlayerMove>)
    requires Valid(d) && OnCell(d)
    ensures Valid(MoveAllIntended(d, ms)) && OnCell(MoveAllIntended(d, ms))
    decreases |ms|
  {
    if ms != [] {
      MoveIntendedStaysOnCell(d, ms[0]);
      MoveAllIntendedStaysOnCell(MoveIntended(d, ms[0]), ms[1..]);
    }
  }

  /** With the intended move, UP then LEFT from the corner stays in the corner. */
  lemma UpLeftFromCornerIntended()
    ensures MoveAllIntended(Drainer(GridPosition(0, 0), 4, 4), [Up, Left]).position == GridPosition(0, 0)
  {
  }

  /** The two definitions agree on RIGHT away from the last column and on DOWN
      away from the last row and the first column; they disagree on LEFT and UP
      whenever the intended move would change the position, and on RIGHT at the
      last column. */
  lemma MoveAgreesWithIntended(d: Drainer)
    requires Valid(d) && OnCell(d)
    ensures d.position.col < d.gridWidth - 1 ==> Move(d, Right) == MoveIntended(d, Right)
    ensures d.position.row < d.gridHeight - 1 && d.position.col > 0 ==> Move(d, Down) == MoveIntended(d, Down)
    ensures d.position.col > 0 ==> Move(d, Left) != MoveIntended(d, Left)
    ensures d.position.row > 0 ==> Move(d, Up) != MoveIntended(d, Up)
    ensures d.position.col == d.gridWidth - 1 ==> Move(d, Right) != MoveIntended(d, Right)
  {
  }
}
