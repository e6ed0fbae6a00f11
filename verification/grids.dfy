/** The grid: rows of cells plus the list of positions available for the next
    fill. As written, `drainCell` does not return the drained position to the
    list, `fillCell` has an empty body, and `update` decays every cell without
    reporting which ones ran out. */
module Grids {
  import opened Ints
  import opened Options
  import opened Positions
  import opened Cells

  datatype Grid = Grid(cells: seq<seq<Cell>>, available: seq<GridPosition>)

  /** `grid[row][col]` is in range. */
  predicate InGrid(g: Grid, row: int, col: int) {
    0 <= row < |g.cells| && 0 <= col < |g.cells[row]|
  }

  predicate SameShape(g: Grid, h: Grid) {
    && |g.cells| == |h.cells|
    && forall i :: 0 <= i < |g.cells| ==> |g.cells[i]| == |h.cells[i]|
  }

  ghost predicate WellFormed(g: Grid) {
    forall i, j :: InGrid(g, i, j) ==> Cells.WellFormed(g.cells[i][j])
  }

  /** Every cell is still a default-constructed one. */
  ghost predicate Pristine(g: Grid) {
    forall i, j :: InGrid(g, i, j) ==> g.cells[i][j] == Default
  }

  /** The declared purpose of the list: each listed position is an empty cell. */
  predicate AvailableAreEmpty(g: Grid) {
    forall k :: 0 <= k < |g.available| ==>
      && InGrid(g, g.available[k].row, g.available[k].col)
      && IsEmpty(g.cells[g.available[k].row][g.available[k].col])
  }

  /** `height` rows of `width` default cells. */
  function EmptyCells(height: nat, width: nat): (r: seq<seq<Cell>>)
    ensures |r| == height
    ensures forall i :: 0 <= i < height ==> |r[i]| == width
    ensures forall i, j :: 0 <= i < height && 0 <= j < width ==> r[i][j] == Default
  {
    seq(height, _ => seq(width, _ => Default))
  }

  /** The positions the inner loop hands to `GridPosition` for row `i`: both loop
      counters are `int`s narrowed to `int8_t` by the constructor's parameters. */
  function RowPositions(i: int, width: nat): (r: seq<GridPosition>)
    ensures |r| == width
    ensures forall j :: 0 <= j < width ==> r[j] == GridPosition(ToInt8(i), ToInt8(j))
  {
    seq(width, j => GridPosition(ToInt8(i), ToInt8(j)))
  }

  /** The positions handed to `GridPosition` by the two nested loops, in order. */
  function RowMajor(height: nat, width: nat): (r: seq<GridPosition>)
    ensures |r| == height * width
    decreases height
  {
    if height == 0 then [] else RowMajor(height - 1, width) + RowPositions(height - 1, width)
  }

  /** True when none of the `GridPosition` constructions asserts. */
  predicate AllConstructible(ps: seq<GridPosition>) {
    forall k :: 0 <= k < |ps| ==> MakePosition(ps[k].row, ps[k].col).Some?
  }

  /** The `Grid` constructor: `height` rows of `width` empty cells and every
      position pushed in row-major order; `None` when some `GridPosition`
      assertion aborts. The drainer reference it stores is used only for drawing. */
  function NewGrid(width: Uint8, height: Uint8): (r: Option<Grid>)
    ensures r.Some? <==> AllConstructible(RowMajor(height, width))
    ensures r.Some? ==> r.value.available == RowMajor(height, width)
    ensures r.Some? ==> |r.value.cells| == height
    ensures r.Some? ==> forall i :: 0 <= i < height ==> |r.value.cells[i]| == width
    ensures r.Some? ==> Pristine(r.value) && WellFormed(r.value)
  {
    var ps := RowMajor(height, width);
    if AllConstructible(ps) then Some(Grid(EmptyCells(height, width), ps)) else None
  }

  /** Every (i, j) with i < height and j < width is listed, after narrowing. */
  lemma {:induction false} RowMajorContains(height: nat, width: nat, i: int, j: int)
    requires 0 <= i < height && 0 <= j < width
    ensures GridPosition(ToInt8(i), ToInt8(j)) in RowMajor(height, width)
    decreases height
  {
    var row := RowPositions(height - 1, width);
    if i == height - 1 {
      assert row[j] == GridPosition(ToInt8(i), ToInt8(j));
    } else {
      RowMajorContains(height - 1, width, i, j);
    }
  }

  /** Without narrowing (both sizes at most 128) the list holds exactly the
      positions of the grid. */
  lemma {:induction false} RowMajorMembership(height: nat, width: nat, p: GridPosition)
    requires height <= 128 && width <= 128
    ensures p in RowMajor(height, width) <==> 0 <= p.row < height && 0 <= p.col < width
    decreases height
  {
    if height > 0 {
      var row := RowPositions(height - 1, width);
      assert RowMajor(height, width) == RowMajor(height - 1, width) + row;
      RowMajorMembership(height - 1, width, p);
      if 0 <= p.row < height && 0 <= p.col < width {
        RowMajorContains(height, width, p.row, p.col);
      }
    }
  }

  /** Row-major order: lexicographic on (row, col). */
  predicate Before(p: GridPosition, q: GridPosition) {
    p.row < q.row || (p.row == q.row && p.col < q.col)
  }

  /** Without narrowing the list is strictly increasing in row-major order, so
      each position appears exactly once and in that order. */
  lemma {:induction false} RowMajorSorted(height: nat, width: nat)
    requires height <= 128 && width <= 128
    ensures forall k, l :: 0 <= k < l < |RowMajor(height, width)| ==>
              Before(RowMajor(height, width)[k], RowMajor(height, width)[l])
    decreases height
  {
    if height > 0 {
      var prefix := RowMajor(height - 1, width);
      var row := RowPositions(height - 1, width);
      var r := RowMajor(height, width);
      assert r == prefix + row;
      RowMajorSorted(height - 1, width);
      forall k | 0 <= k < |prefix|
        ensures prefix[k].row < height - 1
      {
        RowMajorMembership(height - 1, width, prefix[k]);
      }
      forall k, l | 0 <= k < l < |r|
        ensures Before(r[k], r[l])
      {
        if l < |prefix| {
          assert r[k] == prefix[k] && r[l] == prefix[l];
        } else if k < |prefix| {
          assert r[k] == prefix[k] && r[l] == row[l - |prefix|];
        } else {
          assert r[k] == row[k - |prefix|] && r[l] == row[l - |prefix|];
        }
      }
    }
  }

  /** The constructor aborts exactly when a size above 128 meets a non-zero
      other size: counter 128 narrows to -128 and fails the assertion. */
  lemma NewGridSucceedsIff(width: Uint8, height: Uint8)
    ensures NewGrid(width, height).Some? <==>
              (height <= 128 || width == 0) && (width <= 128 || height == 0)
  {
    var ps := RowMajor(height, width);
    if height > 128 && width > 0 {
      RowMajorContains(height, width, 128, 0);
      var k :| 0 <= k < |ps| && ps[k] == GridPosition(ToInt8(128), ToInt8(0));
      assert !MakePosition(ps[k].row, ps[k].col).Some?;
    } else if width > 128 && height > 0 {
      RowMajorContains(height, width, 0, 128);
      var k :| 0 <= k < |ps| && ps[k] == GridPosition(ToInt8(0), ToInt8(128));
      assert !MakePosition(ps[k].row, ps[k].col).Some?;
    } else if height > 0 && width > 0 {
      forall k | 0 <= k < |ps|
        ensures MakePosition(ps[k].row, ps[k].col).Some?
      {
        RowMajorMembership(height, width, ps[k]);
      }
    } else {
      assert |ps| == 0;
    }
  }

  /** A fresh grid lists each of its positions exactly once, in row-major
      order, and every listed position is an empty cell. */
  lemma NewGridAvailable(width: Uint8, height: Uint8)
    requires NewGrid(width, height).Some?
    ensures var g := NewGrid(width, height).value;
      && |g.available| == height * width
      && (forall p :: p in g.available <==> InGrid(g, p.row, p.col))
      && (forall k, l :: 0 <= k < l < |g.available| ==> Before(g.available[k], g.available[l]))
      && AvailableAreEmpty(g)
  {
    NewGridSucceedsIff(width, height);
    var g := NewGrid(width, height).value;
    if height > 0 && width > 0 {
      RowMajorSorted(height, width);
      forall p
        ensures p in g.available <==> InGrid(g, p.row, p.col)
      {
        RowMajorMembership(height, width, p);
      }
      forall k | 0 <= k < |g.available|
        ensures InGrid(g, g.available[k].row, g.available[k].col)
      {
        RowMajorMembership(height, width, g.available[k]);
      }
    } else {
      assert |g.available| == 0;
    }
  }

  /** The result of `drainCell`: its return value, `ret`, and the grid after it. */
  datatype DrainOutcome = DrainOutcome(drained: bool, amount: real, grid: Grid)

  /** `Grid::drainCell`. An empty cell gives `false` and `0` and changes nothing;
      otherwise the result is `true` with the cell's level, and only that cell
      is drained. The available list is never touched. */
  function DrainCell(g: Grid, row: Uint8, col: Uint8): (r: DrainOutcome)
    requires InGrid(g, row, col)
    ensures r.drained <==> !IsEmpty(g.cells[row][col])
    ensures !r.drained ==> r.amount == 0.0 && r.grid == g
    ensures r.drained ==> r.amount == HowFull(g.cells[row][col])
    ensures SameShape(r.grid, g) && r.grid.available == g.available
    ensures r.drained ==> r.grid.cells[row][col] == Drain(g.cells[row][col])
    ensures IsEmpty(r.grid.cells[row][col])
    ensures forall i, j :: InGrid(g, i, j) && (i != row || j != col) ==> r.grid.cells[i][j] == g.cells[i][j]
  {
    var c := g.cells[row][col];
    if IsEmpty(c) then
      DrainOutcome(false, 0.0, g)
    else
      var drainedRow := g.cells[row][col := Drain(c)];
      DrainOutcome(true, HowFull(c), g.(cells := g.cells[row := drainedRow]))
  }

  /** `Grid::fillCell` as written: its body is empty. */
  function FillCell(g: Grid, shrinkRate: real): (r: Grid)
    ensures r == g
  {
    g
  }

  function UpdateRow(row: seq<Cell>, dt: real): (r: seq<Cell>)
    ensures |r| == |row|
    ensures forall j :: 0 <= j < |row| ==> r[j] == Update(row[j], dt)
  {
    if row == [] then [] else [Update(row[0], dt)] + UpdateRow(row[1..], dt)
  }

  function UpdateRows(rows: seq<seq<Cell>>, dt: real): (r: seq<seq<Cell>>)
    ensures |r| == |rows|
    ensures forall i :: 0 <= i < |rows| ==> r[i] == UpdateRow(rows[i], dt)
  {
    if rows == [] then [] else [UpdateRow(rows[0], dt)] + UpdateRows(rows[1..], dt)
  }

  /** `Grid::update`: every cell decays by `dt`; nothing else changes and no
      miss is reported. */
  function UpdateGrid(g: Grid, dt: real): (r: Grid)
    ensures SameShape(r, g) && r.available == g.available
    ensures forall i, j :: InGrid(g, i, j) ==> r.cells[i][j] == Update(g.cells[i][j], dt)
  {
    g.(cells := UpdateRows(g.cells, dt))
  }

  /** On any well-formed grid, `drainCell` keeps the grid well-formed and keeps
      every listed position an empty cell. */
  lemma DrainCellPreserves(g: Grid, row: Uint8, col: Uint8)
    requires InGrid(g, row, col)
    ensures WellFormed(g) ==> WellFormed(DrainCell(g, row, col).grid)
    ensures AvailableAreEmpty(g) ==> AvailableAreEmpty(DrainCell(g, row, col).grid)
  {
  }

  /** On any well-formed grid, a forward `update` keeps the grid well-formed,
      keeps every empty cell empty, and so keeps listed positions empty. */
  lemma UpdateGridPreserves(g: Grid, dt: real)
    requires WellFormed(g) && dt >= 0.0
    ensures WellFormed(UpdateGrid(g, dt))
    ensures forall i, j :: InGrid(g, i, j) && IsEmpty(g.cells[i][j]) ==> IsEmpty(UpdateGrid(g, dt).cells[i][j])
    ensures AvailableAreEmpty(g) ==> AvailableAreEmpty(UpdateGrid(g, dt))
  {
    var r := UpdateGrid(g, dt);
    forall i, j | InGrid(g, i, j)
      ensures Cells.WellFormed(r.cells[i][j])
      ensures IsEmpty(g.cells[i][j]) ==> IsEmpty(r.cells[i][j])
    {
      UpdatePreservesWellFormed(g.cells[i][j], dt);
    }
  }

  /** An update by no time leaves a well-formed grid as it was. */
  lemma UpdateGridZero(g: Grid)
    requires WellFormed(g)
    ensures UpdateGrid(g, 0.0) == g
  {
    var r := UpdateGrid(g, 0.0);
    forall i | 0 <= i < |g.cells|
      ensures r.cells[i] == g.cells[i]
    {
      assert forall j :: 0 <= j < |g.cells[i]| ==> r.cells[i][j] == g.cells[i][j];
    }
    assert r.cells == g.cells;
  }

  /** The operations a caller can apply to a grid. */
  datatype Op = DrainAt(row: Uint8, col: Uint8) | FillAny(shrinkRate: real) | Tick(dt: real)

  predicate OpFits(g: Grid, op: Op) {
    op.DrainAt? ==> InGrid(g, op.row, op.col)
  }

  predicate OpsFit(g: Grid, ops: seq<Op>) {
    forall k :: 0 <= k < |ops| ==> OpFits(g, ops[k])
  }

  function Step(g: Grid, op: Op): (r: Grid)
    requires OpFits(g, op)
    ensures SameShape(r, g) && r.available == g.available
  {
    match op
    case DrainAt(row, col) => DrainCell(g, row, col).grid
    case FillAny(rate) => FillCell(g, rate)
    case Tick(dt) => UpdateGrid(g, dt)
  }

  lemma SameShapeKeepsFit(g: Grid, h: Grid, ops: seq<Op>)
    requires SameShape(g, h) && OpsFit(g, ops)
    ensures OpsFit(h, ops)
  {
    forall k | 0 <= k < |ops| && ops[k].DrainAt?
      ensures InGrid(h, ops[k].row, ops[k].col)
    {
      assert InGrid(g, ops[k].row, ops[k].col);
    }
  }

  /** Operations applied one after another. */
  function Run(g: Grid, ops: seq<Op>): (r: Grid)
    requires OpsFit(g, ops)
    ensures SameShape(r, g) && r.available == g.available
    decreases |ops|
  {
    if ops == [] then g
    else
      var next := Step(g, ops[0]);
      SameShapeKeepsFit(g, next, ops[1..]);
      Run(next, ops[1..])
  }

  /** No operation can make a pristine grid's cells anything but default: draining
      an empty cell does nothing, filling does nothing, and a zero rate never
      decays. */
  lemma StepKeepsPristine(g: Grid, op: Op)
    requires Pristine(g) && OpFits(g, op)
    ensures Pristine(Step(g, op))
  {
    var r := Step(g, op);
    forall i, j | InGrid(r, i, j)
      ensures r.cells[i][j] == Default
    {
      assert InGrid(g, i, j);
    }
  }

  lemma {:induction false} RunKeepsPristine(g: Grid, ops: seq<Op>)
    requires Pristine(g) && OpsFit(g, ops)
    ensures Pristine(Run(g, ops))
    decreases |ops|
  {
    if ops != [] {
      var next := Step(g, ops[0]);
      StepKeepsPristine(g, ops[0]);
      SameShapeKeepsFit(g, next, ops[1..]);
      RunKeepsPristine(next, ops[1..]);
    }
  }

  /** In every state reachable from a constructed grid, a position is listed as
      available exactly when it names an empty cell. */
  lemma ReachableAvailableIffEmpty(width: Uint8, height: Uint8, ops: seq<Op>)
    requires NewGrid(width, height).Some?
    requires OpsFit(NewGrid(width, height).value, ops)
    ensures var g := Run(NewGrid(width, height).value, ops);
      && AvailableAreEmpty(g)
      && forall p :: p in g.available <==> InGrid(g, p.row, p.col) && IsEmpty(g.cells[p.row][p.col])
  {
    var g0 := NewGrid(width, height).value;
    var g := Run(g0, ops);
    NewGridAvailable(width, height);
    RunKeepsPristine(g0, ops);
    forall p
      ensures p in g.available <==> InGrid(g, p.row, p.col) && IsEmpty(g.cells[p.row][p.col])
    {
      assert p in g0.available <==> InGrid(g0, p.row, p.col);
    }
  }
}
