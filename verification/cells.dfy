/** A single grid square: a fill level that decays linearly at its shrink rate
    and is clamped at zero. Levels, rates and time steps are reals; `dt` is in
    seconds and `shrinkRate` is the proportion of the cell drained per second. */
module Cells {

  datatype Cell = Cell(shrinkRate: real, proportionFilled: real)

  /** The threshold below which a level counts as empty. */
  const Epsilon: real := 0.0001

  /** A default-constructed cell: both fields start at zero. */
  const Default: Cell := Cell(0.0, 0.0)

  predicate IsEmpty(c: Cell) {
    c.proportionFilled < Epsilon
  }

  function HowFull(c: Cell): real {
    c.proportionFilled
  }

  /** A level in [0, 1] and a rate that never raises the level. */
  predicate WellFormed(c: Cell) {
    0.0 <= c.proportionFilled <= 1.0 && c.shrinkRate >= 0.0
  }

  function RealMax(a: real, b: real): (r: real)
    ensures r >= a && r >= b
    ensures r == a || r == b
  {
    if a < b then b else a
  }

  /** `Cell::fill`: full, with the given rate, whatever the cell held before. */
  function Fill(c: Cell, shrinkRate: real): (r: Cell)
    ensures HowFull(r) == 1.0 && r.shrinkRate == shrinkRate
    ensures !IsEmpty(r)
    ensures shrinkRate >= 0.0 ==> WellFormed(r)
  {
    Cell(shrinkRate, 1.0)
  }

  /** `Cell::drain`: level and rate back to zero, the state of a fresh cell. */
  function Drain(c: Cell): (r: Cell)
    ensures IsEmpty(r) && HowFull(r) == 0.0 && r.shrinkRate == 0.0
    ensures r == Default && WellFormed(r)
  {
    c.(shrinkRate := 0.0, proportionFilled := 0.0)
  }

  /** `Cell::update`: the level drops by `dt * shrinkRate` but never below zero. */
  function Update(c: Cell, dt: real): (r: Cell)
    ensures r.shrinkRate == c.shrinkRate
    ensures HowFull(r) >= 0.0
    ensures HowFull(r) >= HowFull(c) - dt * c.shrinkRate
    ensures HowFull(r) == 0.0 || HowFull(r) == HowFull(c) - dt * c.shrinkRate
    ensures HowFull(c) >= 0.0 && dt * c.shrinkRate >= 0.0 ==> HowFull(r) <= HowFull(c)
    ensures HowFull(c) >= 0.0 && dt == 0.0 ==> r == c
  {
    c.(proportionFilled := RealMax(0.0, c.proportionFilled - dt * c.shrinkRate))
  }

  /** Updates applied one after another. */
  function UpdateAll(c: Cell, dts: seq<real>): Cell
    decreases |dts|
  {
    if dts == [] then c else UpdateAll(Update(c, dts[0]), dts[1..])
  }

  lemma DefaultIsEmpty()
    ensures IsEmpty(Default) && HowFull(Default) == 0.0 && Default.shrinkRate == 0.0
  {
  }

  lemma DrainIdempotent(c: Cell)
    ensures Drain(Drain(c)) == Drain(c)
  {
  }

  /** Filling and then updating by no time leaves the cell exactly full. */
  lemma FillThenUpdateZero(c: Cell, shrinkRate: real)
    ensures HowFull(Update(Fill(c, shrinkRate), 0.0)) == 1.0
    ensures Update(Fill(c, shrinkRate), 0.0) == Fill(c, shrinkRate)
  {
  }

  /** A full cell with rate `r` loses `r * dt` of its level in `dt` seconds, so it
      reaches zero exactly when `r * dt >= 1` and reads empty exactly when
      `r * dt > 1 - Epsilon`. */
  lemma FillThenUpdate(c: Cell, shrinkRate: real, dt: real)
    requires shrinkRate >= 0.0 && dt >= 0.0
    ensures HowFull(Update(Fill(c, shrinkRate), dt)) == RealMax(0.0, 1.0 - dt * shrinkRate)
    ensures HowFull(Update(Fill(c, shrinkRate), dt)) == 0.0 <==> dt * shrinkRate >= 1.0
    ensures IsEmpty(Update(Fill(c, shrinkRate), dt)) <==> dt * shrinkRate > 1.0 - Epsilon
  {
  }

  /** The three examples documenting `shrinkRate`. */
  lemma ShrinkRateExamples(c: Cell)
    ensures HowFull(Update(Fill(c, 0.5), 1.0)) == 0.5
    ensures HowFull(Update(Fill(c, 1.0), 1.0)) == 0.0 && IsEmpty(Update(Fill(c, 1.0), 1.0))
    ensures HowFull(Update(Fill(c, 2.0), 0.5)) == 0.0
  {
  }

  /** A well-formed cell stays well-formed under a forward step in time. */
  lemma UpdatePreservesWellFormed(c: Cell, dt: real)
    requires WellFormed(c) && dt >= 0.0
    ensures WellFormed(Update(c, dt))
    ensures IsEmpty(c) ==> IsEmpty(Update(c, dt))
  {
  }

  /** Between fills the level never rises: any run of forward updates ends no
      fuller than it began, keeps the rate, and stays well-formed. */
  lemma {:induction false} UpdateAllNonIncreasing(c: Cell, dts: seq<real>)
    requires WellFormed(c)
    requires forall k :: 0 <= k < |dts| ==> dts[k] >= 0.0
    ensures WellFormed(UpdateAll(c, dts))
    ensures HowFull(UpdateAll(c, dts)) <= HowFull(c)
    ensures UpdateAll(c, dts).shrinkRate == c.shrinkRate
    ensures IsEmpty(c) ==> IsEmpty(UpdateAll(c, dts))
    decreases |dts|
  {
    if dts != [] {
      UpdatePreservesWellFormed(c, dts[0]);
      UpdateAllNonIncreasing(Update(c, dts[0]), dts[1..]);
    }
  }
}
