/** One square of the mine field (src/model/Cell.ts) and the value types it uses. */
module Cells {

  /** `CellCoordinate`: the pair `[x, y]`, column first. */
  type Coordinate = (int, int)

  /** `CellStatus`: a square is untouched, opened or flagged. */
  datatype CellStatus = Initial | Opened | Marked

  /** The mutable part of a `Cell` at one moment, as a value. */
  datatype CellState = CellState(status: CellStatus, mine: bool, aroundMineCount: int)

  /** What a freshly constructed cell holds. */
  const NewCellState := CellState(Initial, false, 0)

  class Cell {
    var status: CellStatus
    var mine: bool
    /** Assigned once by the constructor and never written again. */
    const coordinate: Coordinate
    var aroundMineCount: int

    /** The getter `x`: the column, which with `y` gives back the coordinate. */
    function X(): (x: int)
      ensures (x, Y()) == coordinate
    {
      coordinate.0
    }

    /** The getter `y`: the row, which with `x` gives back the coordinate. */
    function Y(): (y: int)
      ensures (coordinate.0, y) == coordinate
    {
      coordinate.1
    }

    /** The getter `openable`: only an untouched square can be opened or flagged. */
    predicate Openable()
      reads this
      ensures Openable() <==> State().status !in {Opened, Marked}
    {
      status == Initial
    }

    /** The current values of the mutable fields. */
    function State(): CellState
      reads this
    {
      CellState(status, mine, aroundMineCount)
    }

    constructor (coordinate: Coordinate)
      ensures this.coordinate == coordinate
      ensures X() == coordinate.0 && Y() == coordinate.1
      ensures State() == NewCellState && Openable()
    {
      this.coordinate := coordinate;
      status := Initial;
      mine := false;
      aroundMineCount := 0;
    }

    /** Sets the status unconditionally; the game decides which moves are legal. */
    method SetStatus(s: CellStatus)
      modifies this
      ensures State() == old(State()).(status := s)
      ensures Openable() <==> s == Initial
    {
      status := s;
    }

    /** Counts one more mine in this square's neighbourhood. */
    method AddAroundMineCount()
      modifies this
      ensures State() == old(State()).(aroundMineCount := old(aroundMineCount) + 1)
    {
      aroundMineCount := aroundMineCount + 1;
    }

    /** Puts a mine here; the new value does not depend on the old one, so a second call changes nothing. */
    method LayMine()
      modifies this
      ensures State() == old(State()).(mine := true)
    {
      mine := true;
    }
  }
}
