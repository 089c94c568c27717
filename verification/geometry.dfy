/**
 * Board geometry of the Game of Life: positions, board bounds, and the
 * neighbour positions a cell computes once, when it is built.
 *
 * The board is `maxX` columns by `maxY` rows and does not wrap: a position
 * (x, y) lies on it when 0 <= x < maxX and 0 <= y < maxY.
 */
module Geometry {

  /** A position (x, y): x counts columns from the left, y rows from the top. */
  type Coord = (int, int)

  predicate InBounds(c: Coord, maxX: int, maxY: int) {
    0 <= c.0 < maxX && 0 <= c.1 < maxY
  }

  /** n is one of the eight positions around c in the Moore neighbourhood. */
  predicate IsMooreNeighbour(c: Coord, n: Coord) {
    n != c && -1 <= n.0 - c.0 <= 1 && -1 <= n.1 - c.1 <= 1
  }

  predicate NoDuplicates<T(==)>(s: seq<T>) {
    forall i, j :: 0 <= i < j < |s| ==> s[i] != s[j]
  }

  // The eight boundary tests of a cell at `c` on a `maxX` by `maxY` board.
  // Each one looks only at the bounds its direction can leave; for a cell
  // that is itself on the board, each holds exactly when the position in
  // its direction is on the board too.

  function HasLeftNeighbour(c: Coord, maxX: int, maxY: int): (r: bool)
    ensures InBounds(c, maxX, maxY) ==> (r <==> InBounds((c.0 - 1, c.1), maxX, maxY))
  {
    c.0 - 1 >= 0
  }

  function HasRightNeighbour(c: Coord, maxX: int, maxY: int): (r: bool)
    ensures InBounds(c, maxX, maxY) ==> (r <==> InBounds((c.0 + 1, c.1), maxX, maxY))
  {
    c.0 + 1 < maxX
  }

  function HasUpperNeighbour(c: Coord, maxX: int, maxY: int): (r: bool)
    ensures InBounds(c, maxX, maxY) ==> (r <==> InBounds((c.0, c.1 - 1), maxX, maxY))
  {
    c.1 - 1 >= 0
  }

  function HasLowerNeighbour(c: Coord, maxX: int, maxY: int): (r: bool)
    ensures InBounds(c, maxX, maxY) ==> (r <==> InBounds((c.0, c.1 + 1), maxX, maxY))
  {
    c.1 + 1 < maxY
  }

  function HasUpperLeftNeighbour(c: Coord, maxX: int, maxY: int): (r: bool)
    ensures InBounds(c, maxX, maxY) ==> (r <==> InBounds((c.0 - 1, c.1 - 1), maxX, maxY))
  {
    c.0 - 1 >= 0 && c.1 - 1 >= 0
  }

  function HasUpperRightNeighbour(c: Coord, maxX: int, maxY: int): (r: bool)
    ensures InBounds(c, maxX, maxY) ==> (r <==> InBounds((c.0 + 1, c.1 - 1), maxX, maxY))
  {
    c.1 - 1 >= 0 && c.0 + 1 < maxX
  }

  function HasLowerLeftNeighbour(c: Coord, maxX: int, maxY: int): (r: bool)
    ensures InBounds(c, maxX, maxY) ==> (r <==> InBounds((c.0 - 1, c.1 + 1), maxX, maxY))
  {
    c.0 - 1 >= 0 && c.1 + 1 < maxY
  }

  function HasLowerRightNeighbour(c: Coord, maxX: int, maxY: int): (r: bool)
    ensures InBounds(c, maxX, maxY) ==> (r <==> InBounds((c.0 + 1, c.1 + 1), maxX, maxY))
  {
    c.0 + 1 < maxX && c.1 + 1 < maxY
  }

  /** `s` followed by `n` when `present` holds, `s` otherwise. */
  function AppendIf(s: seq<Coord>, present: bool, n: Coord): seq<Coord> {
    if present then s + [n] else s
  }

  /**
   * Boundary test k of the eight a cell runs, in the order it runs them:
   * right, left, lower left, lower right, upper, lower, upper left, upper
   * right.
   */
  function NeighbourTest(c: Coord, maxX: int, maxY: int, k: int): bool {
    if k == 0 then HasRightNeighbour(c, maxX, maxY)
    else if k == 1 then HasLeftNeighbour(c, maxX, maxY)
    else if k == 2 then HasLowerLeftNeighbour(c, maxX, maxY)
    else if k == 3 then HasLowerRightNeighbour(c, maxX, maxY)
    else if k == 4 then HasUpperNeighbour(c, maxX, maxY)
    else if k == 5 then HasLowerNeighbour(c, maxX, maxY)
    else if k == 6 then HasUpperLeftNeighbour(c, maxX, maxY)
    else HasUpperRightNeighbour(c, maxX, maxY)
  }

  /** The position that boundary test k of a cell at `c` admits. */
  function NeighbourAt(c: Coord, k: int): Coord {
    var (x, y) := c;
    if k == 0 then (x + 1, y)
    else if k == 1 then (x - 1, y)
    else if k == 2 then (x - 1, y + 1)
    else if k == 3 then (x + 1, y + 1)
    else if k == 4 then (x, y - 1)
    else if k == 5 then (x, y + 1)
    else if k == 6 then (x - 1, y - 1)
    else (x + 1, y - 1)
  }

  /** The positions admitted by the first k boundary tests, in order. */
  function NeighbourPrefix(c: Coord, maxX: int, maxY: int, k: nat): seq<Coord>
    requires k <= 8
  {
    if k == 0 then []
    else AppendIf(NeighbourPrefix(c, maxX, maxY, k - 1), NeighbourTest(c, maxX, maxY, k - 1), NeighbourAt(c, k - 1))
  }

  /** The neighbour list a cell at `c` stores: what all eight tests admit. */
  function NeighbourList(c: Coord, maxX: int, maxY: int): seq<Coord> {
    NeighbourPrefix(c, maxX, maxY, 8)
  }

  /** The neighbour list written out, one boundary test after the other. */
  lemma NeighbourListInOrder(c: Coord, maxX: int, maxY: int)
    ensures NeighbourList(c, maxX, maxY) ==
      var (x, y) := c;
      var s0 := AppendIf([], HasRightNeighbour(c, maxX, maxY), (x + 1, y));
      var s1 := AppendIf(s0, HasLeftNeighbour(c, maxX, maxY), (x - 1, y));
      var s2 := AppendIf(s1, HasLowerLeftNeighbour(c, maxX, maxY), (x - 1, y + 1));
      var s3 := AppendIf(s2, HasLowerRightNeighbour(c, maxX, maxY), (x + 1, y + 1));
      var s4 := AppendIf(s3, HasUpperNeighbour(c, maxX, maxY), (x, y - 1));
      var s5 := AppendIf(s4, HasLowerNeighbour(c, maxX, maxY), (x, y + 1));
      var s6 := AppendIf(s5, HasUpperLeftNeighbour(c, maxX, maxY), (x - 1, y - 1));
      AppendIf(s6, HasUpperRightNeighbour(c, maxX, maxY), (x + 1, y - 1))
  {
    var (x, y) := c;
    var s0 := AppendIf([], HasRightNeighbour(c, maxX, maxY), (x + 1, y));
    assert NeighbourPrefix(c, maxX, maxY, 1) == s0;
    var s1 := AppendIf(s0, HasLeftNeighbour(c, maxX, maxY), (x - 1, y));
    assert NeighbourPrefix(c, maxX, maxY, 2) == s1;
    var s2 := AppendIf(s1, HasLowerLeftNeighbour(c, maxX, maxY), (x - 1, y + 1));
    assert NeighbourPrefix(c, maxX, maxY, 3) == s2;
    var s3 := AppendIf(s2, HasLowerRightNeighbour(c, maxX, maxY), (x + 1, y + 1));
    assert NeighbourPrefix(c, maxX, maxY, 4) == s3;
    var s4 := AppendIf(s3, HasUpperNeighbour(c, maxX, maxY), (x, y - 1));
    assert NeighbourPrefix(c, maxX, maxY, 5) == s4;
    var s5 := AppendIf(s4, HasLowerNeighbour(c, maxX, maxY), (x, y + 1));
    assert NeighbourPrefix(c, maxX, maxY, 6) == s5;
    var s6 := AppendIf(s5, HasUpperLeftNeighbour(c, maxX, maxY), (x - 1, y - 1));
    assert NeighbourPrefix(c, maxX, maxY, 7) == s6;
  }

  /** Membership in the neighbour list, test by test. */
  lemma NeighbourListMembers(c: Coord, maxX: int, maxY: int, n: Coord)
    ensures n in NeighbourList(c, maxX, maxY) <==>
      || (HasRightNeighbour(c, maxX, maxY) && n == (c.0 + 1, c.1))
      || (HasLeftNeighbour(c, maxX, maxY) && n == (c.0 - 1, c.1))
      || (HasLowerLeftNeighbour(c, maxX, maxY) && n == (c.0 - 1, c.1 + 1))
      || (HasLowerRightNeighbour(c, maxX, maxY) && n == (c.0 + 1, c.1 + 1))
      || (HasUpperNeighbour(c, maxX, maxY) && n == (c.0, c.1 - 1))
      || (HasLowerNeighbour(c, maxX, maxY) && n == (c.0, c.1 + 1))
      || (HasUpperLeftNeighbour(c, maxX, maxY) && n == (c.0 - 1, c.1 - 1))
      || (HasUpperRightNeighbour(c, maxX, maxY) && n == (c.0 + 1, c.1 - 1))
  {
    NeighbourListInOrder(c, maxX, maxY);
  }

  /**
   * For a cell on the board, the neighbour list holds exactly the on-board
   * positions of its Moore neighbourhood.
   */
  lemma NeighbourListExact(c: Coord, maxX: int, maxY: int)
    requires InBounds(c, maxX, maxY)
    ensures forall n :: n in NeighbourList(c, maxX, maxY) <==> IsMooreNeighbour(c, n) && InBounds(n, maxX, maxY)
  {
    forall n
      ensures n in NeighbourList(c, maxX, maxY) <==> IsMooreNeighbour(c, n) && InBounds(n, maxX, maxY)
    {
      NeighbourListMembers(c, maxX, maxY, n);
    }
  }

  /** A cell is never its own neighbour, wherever it is. */
  lemma SelfNotNeighbour(c: Coord, maxX: int, maxY: int)
    ensures c !in NeighbourList(c, maxX, maxY)
  {
    NeighbourListMembers(c, maxX, maxY, c);
  }

  lemma AppendIfDistinct(s: seq<Coord>, present: bool, n: Coord)
    requires NoDuplicates(s)
    requires present ==> n !in s
    ensures NoDuplicates(AppendIf(s, present, n))
  {
  }

  /** The eight tests admit eight different positions. */
  lemma NeighbourAtInjective(c: Coord, i: int, j: int)
    requires 0 <= i < j < 8
    ensures NeighbourAt(c, i) != NeighbourAt(c, j)
  {
  }

  lemma {:induction false} NeighbourPrefixFrom(c: Coord, maxX: int, maxY: int, k: nat, n: Coord)
    requires k <= 8 && n in NeighbourPrefix(c, maxX, maxY, k)
    ensures exists j :: 0 <= j < k && n == NeighbourAt(c, j)
  {
    if n !in NeighbourPrefix(c, maxX, maxY, k - 1) {
      assert n == NeighbourAt(c, k - 1);
    } else {
      NeighbourPrefixFrom(c, maxX, maxY, k - 1, n);
    }
  }

  lemma {:induction false} NeighbourPrefixDistinct(c: Coord, maxX: int, maxY: int, k: nat)
    requires k <= 8
    ensures NoDuplicates(NeighbourPrefix(c, maxX, maxY, k))
    ensures |NeighbourPrefix(c, maxX, maxY, k)| <= k
  {
    if k > 0 {
      var s, n := NeighbourPrefix(c, maxX, maxY, k - 1), NeighbourAt(c, k - 1);
      NeighbourPrefixDistinct(c, maxX, maxY, k - 1);
      if n in s {
        NeighbourPrefixFrom(c, maxX, maxY, k - 1, n);
        var j :| 0 <= j < k - 1 && n == NeighbourAt(c, j);
        NeighbourAtInjective(c, j, k - 1);
      }
      AppendIfDistinct(s, NeighbourTest(c, maxX, maxY, k - 1), n);
    }
  }

  /** No position is listed twice, and there are at most eight. */
  lemma NeighbourListDistinct(c: Coord, maxX: int, maxY: int)
    ensures NoDuplicates(NeighbourList(c, maxX, maxY))
    ensures |NeighbourList(c, maxX, maxY)| <= 8
  {
    NeighbourPrefixDistinct(c, maxX, maxY, 8);
  }

  /** How many of the lines v - 1, v, v + 1 lie on a board of extent m, for 0 <= v < m. */
  function Span(v: int, m: int): nat {
    (if v - 1 >= 0 then 1 else 0) + 1 + (if v + 1 < m then 1 else 0)
  }

  /**
   * The neighbour list of a cell on the board covers its 3 by 3 block,
   * clipped to the board, less the cell itself.
   */
  lemma NeighbourCount(c: Coord, maxX: int, maxY: int)
    requires InBounds(c, maxX, maxY)
    ensures |NeighbourList(c, maxX, maxY)| == Span(c.0, maxX) * Span(c.1, maxY) - 1
  {
    var l, r := c.0 - 1 >= 0, c.0 + 1 < maxX;
    var u, d := c.1 - 1 >= 0, c.1 + 1 < maxY;
    var horizontal := (if l then 1 else 0) + (if r then 1 else 0);
    var vertical := (if u then 1 else 0) + (if d then 1 else 0);
    var diag := (if l && u then 1 else 0) + (if l && d then 1 else 0) + (if r && u then 1 else 0) + (if r && d then 1 else 0);
    NeighbourListInOrder(c, maxX, maxY);
    assert |NeighbourList(c, maxX, maxY)| == horizontal + vertical + diag;
    assert diag == horizontal * vertical;
    assert Span(c.0, maxX) * Span(c.1, maxY) == (horizontal + 1) * (vertical + 1);
  }

  predicate OnLeftOrRightSide(c: Coord, maxX: int) {
    c.0 == 0 || c.0 == maxX - 1
  }

  predicate OnTopOrBottomSide(c: Coord, maxY: int) {
    c.1 == 0 || c.1 == maxY - 1
  }

  predicate IsCorner(c: Coord, maxX: int, maxY: int) {
    OnLeftOrRightSide(c, maxX) && OnTopOrBottomSide(c, maxY)
  }

  predicate IsEdge(c: Coord, maxX: int, maxY: int) {
    OnLeftOrRightSide(c, maxX) != OnTopOrBottomSide(c, maxY)
  }

  predicate IsInterior(c: Coord, maxX: int, maxY: int) {
    !OnLeftOrRightSide(c, maxX) && !OnTopOrBottomSide(c, maxY)
  }

  /**
   * On a board of at least 2 by 2, a corner cell has 3 neighbours, a cell
   * on an edge but not in a corner has 5, and an interior cell has 8.
   */
  lemma NeighbourCountByPosition(c: Coord, maxX: int, maxY: int)
    requires 2 <= maxX && 2 <= maxY && InBounds(c, maxX, maxY)
    ensures IsCorner(c, maxX, maxY) ==> |NeighbourList(c, maxX, maxY)| == 3
    ensures IsEdge(c, maxX, maxY) ==> |NeighbourList(c, maxX, maxY)| == 5
    ensures IsInterior(c, maxX, maxY) ==> |NeighbourList(c, maxX, maxY)| == 8
  {
    NeighbourCount(c, maxX, maxY);
    assert OnLeftOrRightSide(c, maxX) ==> Span(c.0, maxX) == 2;
    assert !OnLeftOrRightSide(c, maxX) ==> Span(c.0, maxX) == 3;
    assert OnTopOrBottomSide(c, maxY) ==> Span(c.1, maxY) == 2;
    assert !OnTopOrBottomSide(c, maxY) ==> Span(c.1, maxY) == 3;
  }
}
