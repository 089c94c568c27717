/**
 * The simulation objects of the Game of Life: `Cell`, whose live flag is
 * changed in place, and `Grid`, which owns the list of cells and builds
 * each new generation in a fresh list while reading only the old one.
 *
 * Each method is proved against the value model of module `Generation`:
 * `Snapshot` reads a list of cells as a generation value.
 */
module GameOfLife {
  import opened Geometry
  import opened Generation

  class Cell {
    var isAlive: bool
    const coords: Coord
    const maxX: int
    const maxY: int
    /** Computed once, when the cell is built, and never changed. */
    const neighbourCoords: seq<Coord>

    /** A dead cell at `coords` on a `maxX` by `maxY` board. */
    constructor (coords: Coord, maxX: int, maxY: int)
      ensures this.coords == coords && this.maxX == maxX && this.maxY == maxY
      ensures State() == NewCell(coords, maxX, maxY)
    {
      isAlive := false;
      this.coords := coords;
      this.maxX := maxX;
      this.maxY := maxY;
      var ns := GetCoordsOfNeighbours(coords, maxX, maxY);
      neighbourCoords := ns;
    }

    /** This cell as a value of the generation model. */
    ghost function State(): CellState
      reads this
    {
      CellState(coords, isAlive, neighbourCoords)
    }

    /** A plain read of the live flag, the flag of this cell's state. */
    function IsCellAlive(): (alive: bool)
      reads this
      ensures alive == State().alive
    {
      isAlive
    }

    /** A plain read of the position, the position of this cell's state. */
    function GetCoords(): (c: Coord)
      reads this
      ensures c == State().coords
    {
      coords
    }

    method ChangeToAlive()
      modifies this`isAlive
      ensures isAlive
    {
      isAlive := true;
    }

    method ChangeToDead()
      modifies this`isAlive
      ensures !isAlive
    {
      isAlive := false;
    }

    /**
     * The neighbour list of a cell at `coords`, collected test by test. It
     * takes the cell's fields as parameters because the constructor calls it
     * before the cell exists.
     */
    static method GetCoordsOfNeighbours(coords: Coord, maxX: int, maxY: int) returns (neighbourCoords: seq<Coord>)
      ensures neighbourCoords == NeighbourList(coords, maxX, maxY)
    {
      neighbourCoords := [];
      var (x, y) := coords;
      if HasRightNeighbour(coords, maxX, maxY) {
        neighbourCoords := neighbourCoords + [(x + 1, y)];
      }
      if HasLeftNeighbour(coords, maxX, maxY) {
        neighbourCoords := neighbourCoords + [(x - 1, y)];
      }
      if HasLowerLeftNeighbour(coords, maxX, maxY) {
        neighbourCoords := neighbourCoords + [(x - 1, y + 1)];
      }
      if HasLowerRightNeighbour(coords, maxX, maxY) {
        neighbourCoords := neighbourCoords + [(x + 1, y + 1)];
      }
      if HasUpperNeighbour(coords, maxX, maxY) {
        neighbourCoords := neighbourCoords + [(x, y - 1)];
      }
      if HasLowerNeighbour(coords, maxX, maxY) {
        neighbourCoords := neighbourCoords + [(x, y + 1)];
      }
      if HasUpperLeftNeighbour(coords, maxX, maxY) {
        neighbourCoords := neighbourCoords + [(x - 1, y - 1)];
      }
      if HasUpperRightNeighbour(coords, maxX, maxY) {
        neighbourCoords := neighbourCoords + [(x + 1, y - 1)];
      }
      NeighbourListInOrder(coords, maxX, maxY);
    }

    /**
     * The number of cells of `grid` that are alive and sit at a position of
     * this cell's neighbour list, found by scanning the whole list.
     */
    method CountAliveNeighbours(grid: seq<Cell>) returns (aliveCells: nat)
      ensures aliveCells == AliveNeighbourCount(Snapshot(grid), neighbourCoords)
    {
      aliveCells := 0;
      for i := 0 to |grid|
        invariant aliveCells == AliveNeighbourCount(Snapshot(grid)[..i], neighbourCoords)
      {
        var cell := grid[i];
        assert Snapshot(grid)[..i + 1][..i] == Snapshot(grid)[..i];
        if cell.GetCoords() in neighbourCoords && cell.IsCellAlive() {
          aliveCells := aliveCells + 1;
        }
      }
      assert Snapshot(grid)[..|grid|] == Snapshot(grid);
    }
  }

  /** A list of cells read as a generation value. */
  ghost function Snapshot(cells: seq<Cell>): (gen: seq<CellState>)
    reads set c | c in cells
    ensures |gen| == |cells|
    ensures forall i :: 0 <= i < |cells| ==> gen[i] == cells[i].State()
  {
    seq(|cells|, i requires 0 <= i < |cells| reads set c | c in cells => cells[i].State())
  }

  ghost predicate DistinctObjects(cells: seq<Cell>) {
    forall i, j :: 0 <= i < j < |cells| ==> cells[i] != cells[j]
  }

  /** Appending one cell appends its state. */
  lemma SnapshotAppend(cells: seq<Cell>, cell: Cell)
    ensures Snapshot(cells + [cell]) == Snapshot(cells) + [cell.State()]
  {
  }

  /**
   * Entry i of `cells` sits at the i-th position of an `xCells` by `yCells`
   * board read row by row, with the neighbour list a cell is built with
   * there. Positions and neighbour lists never change, so this does not
   * depend on the live flags.
   */
  ghost predicate LaidOut(cells: seq<Cell>, xCells: nat, yCells: nat) {
    forall i :: 0 <= i < |cells| ==>
      && xCells > 0
      && cells[i].coords == CoordAt(i, xCells)
      && cells[i].neighbourCoords == NeighbourList(cells[i].coords, xCells, yCells)
  }

  lemma LaidOutAppend(cells: seq<Cell>, cell: Cell, xCells: nat, yCells: nat)
    requires LaidOut(cells, xCells, yCells) && xCells > 0
    requires cell.coords == CoordAt(|cells|, xCells)
    requires cell.neighbourCoords == NeighbourList(cell.coords, xCells, yCells)
    ensures LaidOut(cells + [cell], xCells, yCells)
  {
  }

  /** `cells` covers the whole board, row by row. */
  ghost predicate RowMajorCells(cells: seq<Cell>, xCells: nat, yCells: nat) {
    |cells| == xCells * yCells && LaidOut(cells, xCells, yCells)
  }

  lemma RowMajorSnapshot(cells: seq<Cell>, xCells: nat, yCells: nat)
    ensures RowMajorCells(cells, xCells, yCells) <==> RowMajor(Snapshot(cells), xCells, yCells)
  {
  }

  class Grid {
    const xCells: nat
    const yCells: nat
    var cells: seq<Cell>

    /** The cells cover the board row by row, each a separate object. */
    ghost predicate Valid()
      reads this
    {
      RowMajorCells(cells, xCells, yCells) && DistinctObjects(cells)
    }

    /**
     * A grid of `xCells` by `yCells` cells, seeded from `draws`: cell i
     * starts alive exactly when `draws[i]` is 0. `draws` stands for the
     * values the random source returns, one per cell.
     */
    constructor (xCells: nat, yCells: nat, draws: seq<int>)
      requires |draws| == xCells * yCells
      ensures this.xCells == xCells && this.yCells == yCells
      ensures Valid()
      ensures forall i :: 0 <= i < |cells| ==> (cells[i].isAlive <==> draws[i] == 0)
    {
      this.xCells := xCells;
      this.yCells := yCells;
      cells := [];
      new;
      cells := CreateListOfCells();
      RandomizeDeadAndAlive(draws);
    }

    /**
     * One new dead cell per position, row by row: the cell at index
     * y * xCells + x sits at (x, y).
     */
    method CreateListOfCells() returns (cells: seq<Cell>)
      ensures RowMajorCells(cells, xCells, yCells)
      ensures DistinctObjects(cells)
      ensures forall c :: c in cells ==> fresh(c) && !c.isAlive
    {
      cells := [];
      for y := 0 to yCells
        invariant |cells| == y * xCells
        invariant LaidOut(cells, xCells, yCells)
        invariant forall c :: c in cells ==> fresh(c) && !c.isAlive
        invariant DistinctObjects(cells)
      {
        for x := 0 to xCells
          invariant |cells| == y * xCells + x
          invariant LaidOut(cells, xCells, yCells)
          invariant forall c :: c in cells ==> fresh(c) && !c.isAlive
          invariant DistinctObjects(cells)
        {
          RowMajorIndex(x, y, xCells, yCells);
          var cell := new Cell((x, y), xCells, yCells);
          LaidOutAppend(cells, cell, xCells, yCells);
          cells := cells + [cell];
        }
      }
    }

    /**
     * Sets cell i alive when `draws[i]` is 0 and dead otherwise. The cells
     * must be separate objects: a cell listed twice would keep only its
     * last draw.
     */
    method RandomizeDeadAndAlive(draws: seq<int>)
      requires DistinctObjects(cells) && |draws| == |cells|
      modifies set c | c in cells
      ensures forall i :: 0 <= i < |cells| ==> (cells[i].isAlive <==> draws[i] == 0)
    {
      for i := 0 to |cells|
        invariant forall k :: 0 <= k < i ==> (cells[k].isAlive <==> draws[k] == 0)
      {
        if draws[i] == 0 {
          cells[i].ChangeToAlive();
        } else {
          cells[i].ChangeToDead();
        }
      }
    }

    /** On a valid grid, the number of cells is the number of board positions. */
    function GetCellCount(): (count: nat)
      reads this
      ensures Valid() ==> count == xCells * yCells
    {
      |cells|
    }

    /**
     * The next generation, built in a new list: entry i is entry i of the
     * current generation after the rule, with every count taken over the
     * current cells, which stay as they were.
     */
    method UpdateGrid() returns (newGrid: seq<Cell>)
      ensures Snapshot(newGrid) == Next(Snapshot(cells), xCells, yCells)
      ensures DistinctObjects(cells) ==> DistinctObjects(newGrid)
      ensures forall i :: 0 <= i < |newGrid| ==>
        if KeptAsIs(Snapshot(cells)[i], AliveNeighbourCount(Snapshot(cells), cells[i].neighbourCoords))
        then newGrid[i] == cells[i] else newGrid[i] !in cells
    {
      var current := cells;
      ghost var gen := Snapshot(current);
      newGrid := [];
      for i := 0 to |current|
        invariant Snapshot(current) == gen
        invariant |newGrid| == i
        invariant Snapshot(newGrid) == NextPrefix(gen, i, xCells, yCells)
        invariant forall k :: 0 <= k < i ==>
          if KeptAsIs(gen[k], AliveNeighbourCount(gen, gen[k].neighbours))
          then newGrid[k] == current[k] else newGrid[k] !in current
        invariant DistinctObjects(current) ==> DistinctObjects(newGrid)
      {
        var newCell := NextCellObject(current, i, gen, newGrid);
        SnapshotAppend(newGrid, newCell);
        newGrid := newGrid + [newCell];
      }
    }

    /**
     * One pass of the update loop, for entry i of `current`: count its live
     * neighbours over all of `current`, then build the cell that takes its
     * place. That is a new cell, alive or dead, except that a dead cell
     * that is not born is carried over as the same object. `built` stands
     * for the cells collected so far, none of which is reused.
     */
    method NextCellObject(current: seq<Cell>, i: nat, ghost gen: seq<CellState>, ghost built: seq<Cell>)
      returns (newCell: Cell)
      requires i < |current| && gen == Snapshot(current)
      ensures newCell.State() == NextCell(gen[i], AliveNeighbourCount(gen, gen[i].neighbours), xCells, yCells)
      ensures if KeptAsIs(gen[i], AliveNeighbourCount(gen, gen[i].neighbours))
        then newCell == current[i]
        else fresh(newCell) && newCell !in current && newCell !in built
    {
      var cell := current[i];
      var aliveNeighbourCells := cell.CountAliveNeighbours(current);
      if cell.IsCellAlive() && aliveNeighbourCells < 2 {
        newCell := new Cell(cell.GetCoords(), xCells, yCells);
      } else if cell.IsCellAlive() && 2 <= aliveNeighbourCells <= 3 {
        newCell := new Cell(cell.GetCoords(), xCells, yCells);
        newCell.ChangeToAlive();
      } else if cell.IsCellAlive() && aliveNeighbourCells > 3 {
        newCell := new Cell(cell.GetCoords(), xCells, yCells);
      } else if !cell.IsCellAlive() && aliveNeighbourCells == 3 {
        newCell := new Cell(cell.GetCoords(), xCells, yCells);
        newCell.ChangeToAlive();
      } else {
        newCell := cell;
      }
    }

    /** The driver's swap: the new generation replaces the current one. */
    method Advance()
      requires Valid()
      modifies this
      ensures Valid()
      ensures Snapshot(cells) == Next(old(Snapshot(cells)), xCells, yCells)
    {
      RowMajorSnapshot(cells, xCells, yCells);
      NextKeepsRowMajor(Snapshot(cells), xCells, yCells);
      cells := UpdateGrid();
      RowMajorSnapshot(cells, xCells, yCells);
    }
  }
}
