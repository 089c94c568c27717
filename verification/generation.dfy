/**
 * One generation of the Game of Life as a value, and the B3/S23 step that
 * turns it into the next one.
 *
 * A generation is the ordered list of cells a grid holds. Each entry
 * records where the cell is, whether it is alive, and the neighbour list it
 * was built with. The step reads only the generation it is given: every
 * neighbour count for the next generation is taken over the old one.
 */
module Generation {
  import opened Geometry

  /** One cell at one moment. */
  datatype CellState = CellState(coords: Coord, alive: bool, neighbours: seq<Coord>)

  /** A cell as the grid builds it at `c`: dead, with the neighbour list of `c`. */
  function NewCell(c: Coord, xCells: int, yCells: int): (r: CellState)
    ensures r.coords == c && !r.alive
  {
    CellState(c, false, NeighbourList(c, xCells, yCells))
  }

  /**
   * The number of entries of `gen` that are alive and whose position is in
   * `ns`, counted in a scan of the whole generation.
   */
  function AliveNeighbourCount(gen: seq<CellState>, ns: seq<Coord>): (n: nat)
    ensures n <= |gen|
  {
    if gen == [] then 0
    else
      var last := gen[|gen| - 1];
      AliveNeighbourCount(gen[..|gen| - 1], ns) + (if last.coords in ns && last.alive then 1 else 0)
  }

  /** The B3/S23 rule: born with exactly three live neighbours, survives with two or three. */
  predicate LivesNext(alive: bool, n: int) {
    n == 3 || (alive && n == 2)
  }

  /** The one case of the rule table that leaves a cell as it is: dead and not born. */
  predicate KeptAsIs(c: CellState, n: int) {
    !c.alive && n != 3
  }

  /**
   * The next state of cell `c` when `n` of its neighbours are alive. Every
   * outcome but one is a freshly built cell at the same position; a dead
   * cell that is not born is carried over as it is.
   */
  function NextCell(c: CellState, n: int, xCells: int, yCells: int): (r: CellState)
    ensures r.coords == c.coords
    ensures r.alive <==> LivesNext(c.alive, n)
    ensures r == c || r.neighbours == NeighbourList(c.coords, xCells, yCells)
    ensures KeptAsIs(c, n) ==> r == c
  {
    var built := NewCell(c.coords, xCells, yCells);
    if c.alive && n < 2 then
      built
    else if c.alive && 2 <= n <= 3 then
      built.(alive := true)
    else if c.alive && n > 3 then
      built
    else if !c.alive && n == 3 then
      built.(alive := true)
    else
      c
  }

  /** The first k entries of the next generation of `gen`. */
  function NextPrefix(gen: seq<CellState>, k: nat, xCells: int, yCells: int): (r: seq<CellState>)
    requires k <= |gen|
    ensures |r| == k
  {
    if k == 0 then []
    else
      var c := gen[k - 1];
      NextPrefix(gen, k - 1, xCells, yCells) + [NextCell(c, AliveNeighbourCount(gen, c.neighbours), xCells, yCells)]
  }

  lemma {:induction false} NextPrefixAt(gen: seq<CellState>, k: nat, xCells: int, yCells: int, i: nat)
    requires i < k <= |gen|
    ensures NextPrefix(gen, k, xCells, yCells)[i] == NextCell(gen[i], AliveNeighbourCount(gen, gen[i].neighbours), xCells, yCells)
  {
    if i < k - 1 {
      NextPrefixAt(gen, k - 1, xCells, yCells, i);
    }
  }

  /**
   * The next generation: entry i is entry i of `gen` after the rule, with
   * its live-neighbour count taken over `gen`, never over the entries
   * already computed.
   */
  function Next(gen: seq<CellState>, xCells: int, yCells: int): (r: seq<CellState>)
    ensures |r| == |gen|
    ensures forall i :: 0 <= i < |gen| ==> r[i].coords == gen[i].coords
    ensures forall i :: 0 <= i < |gen| ==>
      (r[i].alive <==> LivesNext(gen[i].alive, AliveNeighbourCount(gen, gen[i].neighbours)))
    ensures forall i :: 0 <= i < |gen| ==>
      r[i] == gen[i] || r[i].neighbours == NeighbourList(gen[i].coords, xCells, yCells)
  {
    var r := NextPrefix(gen, |gen|, xCells, yCells);
    assert forall i :: 0 <= i < |gen| ==> r[i] == NextCell(gen[i], AliveNeighbourCount(gen, gen[i].neighbours), xCells, yCells) by {
      forall i | 0 <= i < |gen| ensures r[i] == NextCell(gen[i], AliveNeighbourCount(gen, gen[i].neighbours), xCells, yCells) {
        NextPrefixAt(gen, |gen|, xCells, yCells, i);
      }
    }
    r
  }

  /** The position of index i in a row-major list of rows `xCells` wide. */
  function CoordAt(i: int, xCells: int): Coord
    requires xCells > 0
  {
    (i % xCells, i / xCells)
  }

  /** The index of position c in a row-major list of rows `xCells` wide. */
  function IndexOf(c: Coord, xCells: int): int {
    c.1 * xCells + c.0
  }

  /**
   * `gen` lists the cells of an `xCells` by `yCells` board row by row, each
   * with the neighbour list a cell at its position is built with.
   */
  ghost predicate RowMajor(gen: seq<CellState>, xCells: nat, yCells: nat) {
    && |gen| == xCells * yCells
    && forall i :: 0 <= i < |gen| ==>
         && xCells > 0
         && gen[i].coords == CoordAt(i, xCells)
         && gen[i].neighbours == NeighbourList(gen[i].coords, xCells, yCells)
  }

  ghost predicate DistinctCoords(gen: seq<CellState>) {
    forall i, j :: 0 <= i < j < |gen| ==> gen[i].coords != gen[j].coords
  }

  lemma MulAtLeast(d: int, m: nat)
    requires d >= 1
    ensures d * m >= m
  {
  }

  /** Euclidean division has one quotient and remainder: those of i == q * m + r. */
  lemma DivModUnique(i: int, m: int, q: int, r: int)
    requires m > 0 && 0 <= r < m && i == q * m + r
    ensures i / m == q && i % m == r
  {
    var q', r' := i / m, i % m;
    assert i == q' * m + r';
    assert (q - q') * m == r' - r;
    if q > q' {
      MulAtLeast(q - q', m);
    } else if q' > q {
      MulAtLeast(q' - q, m);
    }
  }

  lemma RowMajorIndex(x: int, y: int, xCells: nat, yCells: nat)
    requires 0 <= x < xCells && 0 <= y < yCells
    ensures 0 <= IndexOf((x, y), xCells) < xCells * yCells
    ensures CoordAt(IndexOf((x, y), xCells), xCells) == (x, y)
  {
    var i := y * xCells + x;
    MulAtLeast(yCells - y, xCells);
    assert xCells * yCells == y * xCells + (yCells - y) * xCells;
    DivModUnique(i, xCells, y, x);
  }

  /** Index i of a board `xCells` wide with `yCells` rows lies on the board. */
  lemma CoordAtInBounds(i: int, xCells: nat, yCells: nat)
    requires 0 <= i < xCells * yCells
    ensures xCells > 0 && InBounds(CoordAt(i, xCells), xCells, yCells)
  {
  }

  /** A row-major generation holds position (x, y) of the board at index y * xCells + x. */
  lemma RowMajorCoversBoard(gen: seq<CellState>, xCells: nat, yCells: nat)
    requires RowMajor(gen, xCells, yCells)
    ensures forall c :: InBounds(c, xCells, yCells) ==>
      0 <= IndexOf(c, xCells) < |gen| && gen[IndexOf(c, xCells)].coords == c
  {
    forall c | InBounds(c, xCells, yCells)
      ensures 0 <= IndexOf(c, xCells) < |gen| && gen[IndexOf(c, xCells)].coords == c
    {
      RowMajorIndex(c.0, c.1, xCells, yCells);
    }
  }

  /** A row-major generation holds only positions of the board, none of them twice. */
  lemma RowMajorOnBoardOnce(gen: seq<CellState>, xCells: nat, yCells: nat)
    requires RowMajor(gen, xCells, yCells)
    ensures forall i :: 0 <= i < |gen| ==> InBounds(gen[i].coords, xCells, yCells)
    ensures DistinctCoords(gen)
  {
    forall i | 0 <= i < |gen|
      ensures InBounds(gen[i].coords, xCells, yCells)
    {
      CoordAtInBounds(i, xCells, yCells);
    }
    forall i, j | 0 <= i < j < |gen|
      ensures gen[i].coords != gen[j].coords
    {
      assert i == (i / xCells) * xCells + i % xCells;
    }
  }

  /** The step keeps a row-major generation row-major: same positions, same neighbour lists. */
  lemma NextKeepsRowMajor(gen: seq<CellState>, xCells: nat, yCells: nat)
    requires RowMajor(gen, xCells, yCells)
    ensures RowMajor(Next(gen, xCells, yCells), xCells, yCells)
  {
  }

  /** The indices of the entries of `gen` that are alive and listed in `ns`. */
  ghost function MatchingEntries(gen: seq<CellState>, ns: seq<Coord>): set<int> {
    set i | 0 <= i < |gen| && gen[i].alive && gen[i].coords in ns
  }

  /** The scan counts exactly the entries that are alive and listed in `ns`. */
  lemma {:induction false} AliveNeighbourCountIsEntries(gen: seq<CellState>, ns: seq<Coord>)
    ensures AliveNeighbourCount(gen, ns) == |MatchingEntries(gen, ns)|
  {
    if gen != [] {
      var init, last := gen[..|gen| - 1], |gen| - 1;
      AliveNeighbourCountIsEntries(init, ns);
      if gen[last].alive && gen[last].coords in ns {
        assert MatchingEntries(gen, ns) == MatchingEntries(init, ns) + {last};
      } else {
        assert MatchingEntries(gen, ns) == MatchingEntries(init, ns);
      }
    }
  }

  /** The positions listed in `ns` that hold a live entry of `gen`. */
  ghost function LiveNeighbours(gen: seq<CellState>, ns: seq<Coord>): set<Coord> {
    set i | 0 <= i < |gen| && gen[i].alive && gen[i].coords in ns :: gen[i].coords
  }

  /**
   * When no position occurs twice in `gen`, the scan counts live positions:
   * the positions listed in `ns` that hold a live cell.
   */
  lemma {:induction false} AliveNeighbourCountIsPositions(gen: seq<CellState>, ns: seq<Coord>)
    requires DistinctCoords(gen)
    ensures AliveNeighbourCount(gen, ns) == |LiveNeighbours(gen, ns)|
  {
    if gen != [] {
      var init, last := gen[..|gen| - 1], |gen| - 1;
      AliveNeighbourCountIsPositions(init, ns);
      if gen[last].alive && gen[last].coords in ns {
        assert LiveNeighbours(gen, ns) == LiveNeighbours(init, ns) + {gen[last].coords};
        assert gen[last].coords !in LiveNeighbours(init, ns);
      } else {
        assert LiveNeighbours(gen, ns) == LiveNeighbours(init, ns);
      }
    }
  }

  lemma {:induction false} ElementsAtMostLength(ns: seq<Coord>)
    ensures |set n | n in ns| <= |ns|
  {
    if ns != [] {
      var init := ns[..|ns| - 1];
      ElementsAtMostLength(init);
      assert (set n | n in ns) == (set n | n in init) + {ns[|ns| - 1]};
    }
  }

  lemma SubsetSize(a: set<Coord>, b: set<Coord>)
    requires a <= b
    ensures |a| <= |b|
  {
    assert b == a + (b - a);
  }

  /**
   * When no position occurs twice in `gen`, a cell never counts more live
   * neighbours than its neighbour list has entries.
   */
  lemma AliveNeighbourCountAtMost(gen: seq<CellState>, ns: seq<Coord>)
    requires DistinctCoords(gen)
    ensures AliveNeighbourCount(gen, ns) <= |ns|
  {
    AliveNeighbourCountIsPositions(gen, ns);
    ElementsAtMostLength(ns);
    SubsetSize(LiveNeighbours(gen, ns), set n | n in ns);
  }

  /** The entry of `gen` at position c, looked up by its row-major index, is alive. */
  ghost predicate AliveAt(gen: seq<CellState>, c: Coord, xCells: int) {
    0 <= IndexOf(c, xCells) < |gen| && gen[IndexOf(c, xCells)].alive
  }

  /** The eight positions around c, on the board or not. */
  function MooreNeighbourhood(c: Coord): (r: set<Coord>)
    ensures forall n :: n in r <==> IsMooreNeighbour(c, n)
  {
    var (x, y) := c;
    {(x - 1, y - 1), (x, y - 1), (x + 1, y - 1),
     (x - 1, y),                 (x + 1, y),
     (x - 1, y + 1), (x, y + 1), (x + 1, y + 1)}
  }

  /** The on-board positions around c whose cell is alive, each looked up by index. */
  ghost function LiveAround(gen: seq<CellState>, c: Coord, xCells: int, yCells: int): set<Coord> {
    set n | n in MooreNeighbourhood(c) && InBounds(n, xCells, yCells) && AliveAt(gen, n, xCells)
  }

  lemma LiveNeighboursWithinLiveAround(gen: seq<CellState>, xCells: nat, yCells: nat, i: int)
    requires RowMajor(gen, xCells, yCells) && 0 <= i < |gen|
    ensures LiveNeighbours(gen, gen[i].neighbours) <= LiveAround(gen, gen[i].coords, xCells, yCells)
  {
    var c, ns := gen[i].coords, gen[i].neighbours;
    RowMajorCoversBoard(gen, xCells, yCells);
    RowMajorOnBoardOnce(gen, xCells, yCells);
    NeighbourListExact(c, xCells, yCells);
    forall n | n in LiveNeighbours(gen, ns)
      ensures n in LiveAround(gen, c, xCells, yCells)
    {
      var j :| 0 <= j < |gen| && gen[j].alive && gen[j].coords in ns && gen[j].coords == n;
      assert gen[IndexOf(n, xCells)].coords == n;
    }
  }

  lemma LiveAroundWithinLiveNeighbours(gen: seq<CellState>, xCells: nat, yCells: nat, i: int)
    requires RowMajor(gen, xCells, yCells) && 0 <= i < |gen|
    ensures LiveAround(gen, gen[i].coords, xCells, yCells) <= LiveNeighbours(gen, gen[i].neighbours)
  {
    var c, ns := gen[i].coords, gen[i].neighbours;
    RowMajorCoversBoard(gen, xCells, yCells);
    RowMajorOnBoardOnce(gen, xCells, yCells);
    NeighbourListExact(c, xCells, yCells);
    forall n | n in LiveAround(gen, c, xCells, yCells)
      ensures n in LiveNeighbours(gen, ns)
    {
      var j := IndexOf(n, xCells);
      assert gen[j].coords == n;
    }
  }

  /**
   * In a row-major generation, the scan over the whole list counts exactly
   * the live cells of the Moore neighbourhood, as a lookup by position
   * would find them.
   */
  lemma CountIsLiveMooreNeighbours(gen: seq<CellState>, xCells: nat, yCells: nat, i: int)
    requires RowMajor(gen, xCells, yCells) && 0 <= i < |gen|
    ensures AliveNeighbourCount(gen, gen[i].neighbours) == |LiveAround(gen, gen[i].coords, xCells, yCells)|
  {
    var c, ns := gen[i].coords, gen[i].neighbours;
    RowMajorOnBoardOnce(gen, xCells, yCells);
    AliveNeighbourCountIsPositions(gen, ns);
    LiveNeighboursWithinLiveAround(gen, xCells, yCells, i);
    LiveAroundWithinLiveNeighbours(gen, xCells, yCells, i);
    assert LiveNeighbours(gen, ns) == LiveAround(gen, c, xCells, yCells);
  }

  /**
   * On a row-major generation the step is Conway's rule: entry i lives next
   * exactly when it is born or survives given the live cells around its
   * position in the old generation.
   */
  lemma NextFollowsLifeRule(gen: seq<CellState>, xCells: nat, yCells: nat)
    requires RowMajor(gen, xCells, yCells)
    ensures forall i :: 0 <= i < |gen| ==>
      (Next(gen, xCells, yCells)[i].alive <==>
         LivesNext(gen[i].alive, |LiveAround(gen, gen[i].coords, xCells, yCells)|))
  {
    forall i | 0 <= i < |gen|
      ensures Next(gen, xCells, yCells)[i].alive <==>
                LivesNext(gen[i].alive, |LiveAround(gen, gen[i].coords, xCells, yCells)|)
    {
      CountIsLiveMooreNeighbours(gen, xCells, yCells, i);
    }
  }
}
