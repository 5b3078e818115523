/**
 * The up-to-8 neighbours of a square, clipped at the edges of the board, and the
 * number of mines among them, as `describeSquareAt` computes it.
 */
module Neighbourhood {
  import opened Locations
  import opened Squares
  import opened Grids

  /** `b` shares an edge or a corner with `a` and is not `a` itself. */
  predicate Adjacent(a: Location, b: Location) {
    a != b && -1 <= a.x - b.x <= 1 && -1 <= a.y - b.y <= 1
  }

  /**
   * The in-bounds neighbours of `(x, y)` in the order `describeSquareAt` visits the
   * directions: north, north-east, east, south-east, south, south-west, west, north-west.
   */
  function NeighbourList(width: int, height: int, x: int, y: int): (ls: seq<Location>)
    requires 0 <= x < width && 0 <= y < height
    ensures |ls| <= 8
    ensures forall i :: 0 <= i < |ls| ==>
              0 <= ls[i].x < width && 0 <= ls[i].y < height && Adjacent(Location(x, y), ls[i])
  {
    FirstFour(width, height, x, y) + LastFour(width, height, x, y)
  }

  /** North, north-east, east and south-east, those on the board. */
  function FirstFour(width: int, height: int, x: int, y: int): (ls: seq<Location>)
    requires 0 <= x < width && 0 <= y < height
    ensures |ls| <= 4
    ensures forall i :: 0 <= i < |ls| ==>
              0 <= ls[i].x < width && 0 <= ls[i].y < height && Adjacent(Location(x, y), ls[i])
  {
    Piece(y - 1 >= 0, Location(x, y - 1)) +
    Piece(y - 1 >= 0 && x + 1 < width, Location(x + 1, y - 1)) +
    Piece(x + 1 < width, Location(x + 1, y)) +
    Piece(x + 1 < width && y + 1 < height, Location(x + 1, y + 1))
  }

  /** South, south-west, west and north-west, those on the board. */
  function LastFour(width: int, height: int, x: int, y: int): (ls: seq<Location>)
    requires 0 <= x < width && 0 <= y < height
    ensures |ls| <= 4
    ensures forall i :: 0 <= i < |ls| ==>
              0 <= ls[i].x < width && 0 <= ls[i].y < height && Adjacent(Location(x, y), ls[i])
  {
    Piece(y + 1 < height, Location(x, y + 1)) +
    Piece(x - 1 >= 0 && y + 1 < height, Location(x - 1, y + 1)) +
    Piece(x - 1 >= 0, Location(x - 1, y)) +
    Piece(x - 1 >= 0 && y - 1 >= 0, Location(x - 1, y - 1))
  }

  /** `[l]` when the direction's bounds test `b` passes, nothing otherwise. */
  function Piece(b: bool, l: Location): seq<Location> {
    if b then [l] else []
  }

  /** Number of columns (or rows) among `i - 1`, `i`, `i + 1` that lie in `[0, n)`. */
  function Span(i: int, n: int): nat {
    Bit(i - 1 >= 0) + 1 + Bit(i + 1 < n)
  }

  /** Every in-bounds neighbour is listed. */
  lemma NeighbourListComplete(width: int, height: int, x: int, y: int, l: Location)
    requires 0 <= x < width && 0 <= y < height
    requires 0 <= l.x < width && 0 <= l.y < height && Adjacent(Location(x, y), l)
    ensures l in NeighbourList(width, height, x, y)
  {
    var north := Piece(y - 1 >= 0, Location(x, y - 1));
    var northEast := Piece(y - 1 >= 0 && x + 1 < width, Location(x + 1, y - 1));
    var east := Piece(x + 1 < width, Location(x + 1, y));
    var southEast := Piece(x + 1 < width && y + 1 < height, Location(x + 1, y + 1));
    var south := Piece(y + 1 < height, Location(x, y + 1));
    var southWest := Piece(x - 1 >= 0 && y + 1 < height, Location(x - 1, y + 1));
    var west := Piece(x - 1 >= 0, Location(x - 1, y));
    var northWest := Piece(x - 1 >= 0 && y - 1 >= 0, Location(x - 1, y - 1));
    assert FirstFour(width, height, x, y) == north + northEast + east + southEast;
    assert LastFour(width, height, x, y) == south + southWest + west + northWest;
    if l.y == y - 1 {
      if l.x == x - 1 { assert l in northWest; }
      else if l.x == x { assert l in north; }
      else { assert l in northEast; }
    } else if l.y == y {
      if l.x == x - 1 { assert l in west; }
      else { assert l in east; }
    } else {
      if l.x == x - 1 { assert l in southWest; }
      else if l.x == x { assert l in south; }
      else { assert l in southEast; }
    }
  }

  /** The list holds `Span(x) * Span(y) - 1` squares: 3 at a corner, 5 on an edge, 8 inside. */
  lemma NeighbourListLength(width: int, height: int, x: int, y: int)
    requires 0 <= x < width && 0 <= y < height
    ensures |NeighbourList(width, height, x, y)| == Span(x, width) * Span(y, height) - 1
  {
    var sx, sy := Span(x, width), Span(y, height);
    assert sx * sy == sx * Bit(y - 1 >= 0) + sx + sx * Bit(y + 1 < height);
  }

  /** 1 when `(i, j)` is on the board and mined, 0 otherwise (off-board squares count as clear). */
  function MinedBit(g: Grid, i: int, j: int): nat
    requires g.Wf()
  {
    Bit(g.InBounds(i, j) && g.At(i, j).undermined)
  }

  /** Number of mined squares among the locations of `ls` (each counted as often as it occurs). */
  function MinedAmong(g: Grid, ls: seq<Location>): nat
    requires g.Wf()
  {
    if ls == [] then 0 else MinedAmong(g, ls[..|ls| - 1]) + MinedBit(g, ls[|ls| - 1].x, ls[|ls| - 1].y)
  }

  lemma {:induction false} MinedAmongBound(g: Grid, ls: seq<Location>)
    requires g.Wf()
    ensures MinedAmong(g, ls) <= |ls|
  {
    if ls != [] {
      MinedAmongBound(g, ls[..|ls| - 1]);
    }
  }

  lemma {:induction false} MinedAmongAppend(g: Grid, a: seq<Location>, b: seq<Location>)
    requires g.Wf()
    ensures MinedAmong(g, a + b) == MinedAmong(g, a) + MinedAmong(g, b)
    decreases |b|
  {
    if b != [] {
      assert (a + b)[..|a + b| - 1] == a + b[..|b| - 1];
      MinedAmongAppend(g, a, b[..|b| - 1]);
    } else {
      assert a + b == a;
    }
  }

  /** Counting one more location of a list adds that location's mine. */
  lemma MinedAmongPrefix(g: Grid, ls: seq<Location>, j: int)
    requires g.Wf() && 0 <= j < |ls|
    ensures MinedAmong(g, ls[..j + 1]) == MinedAmong(g, ls[..j]) + MinedBit(g, ls[j].x, ls[j].y)
  {
    assert ls[..j + 1][..j] == ls[..j];
  }

  /** Regrouping the four pieces appended after `a`. */
  lemma AppendFour(a: seq<Location>, p1: seq<Location>, p2: seq<Location>, p3: seq<Location>, p4: seq<Location>)
    ensures a + p1 + p2 + p3 + p4 == a + (p1 + p2 + p3 + p4)
  {
  }

  /** Number of mines around the square at `(x, y)`, the number `describeSquareAt` shows. */
  function NeighbourMines(g: Grid, x: int, y: int): nat
    requires g.Wf() && g.InBounds(x, y)
  {
    MinedAmong(g, NeighbourList(g.width, g.height, x, y))
  }

  /** At most 8 mines around any square, at most 5 on an edge and at most 3 in a corner. */
  lemma NeighbourMinesBounds(g: Grid, x: int, y: int)
    requires g.Wf() && g.InBounds(x, y)
    ensures NeighbourMines(g, x, y) <= Span(x, g.width) * Span(y, g.height) - 1
    ensures NeighbourMines(g, x, y) <= 8
    ensures (x == 0 || x == g.width - 1) && (y == 0 || y == g.height - 1) ==> NeighbourMines(g, x, y) <= 3
    ensures (x == 0 || x == g.width - 1 || y == 0 || y == g.height - 1) ==> NeighbourMines(g, x, y) <= 5
  {
    MinedAmongBound(g, NeighbourList(g.width, g.height, x, y));
    NeighbourListLength(g.width, g.height, x, y);
    SpanProduct(Span(x, g.width), Span(y, g.height), x == 0 || x == g.width - 1, y == 0 || y == g.height - 1);
  }

  /** Arithmetic behind the bounds: spans are at most 3, and at most 2 on an edge. */
  lemma SpanProduct(sx: nat, sy: nat, edgeX: bool, edgeY: bool)
    requires 1 <= sx <= (if edgeX then 2 else 3) && 1 <= sy <= (if edgeY then 2 else 3)
    ensures sx * sy - 1 <= 8
    ensures edgeX && edgeY ==> sx * sy - 1 <= 3
    ensures edgeX || edgeY ==> sx * sy - 1 <= 5
  {
    assert sx * sy <= 3 * sy;
    if edgeX { assert sx * sy <= 2 * sy; }
    if edgeY { assert sx * sy <= sx * 2; }
  }


  // ----- A brute-force reference for the neighbour count -----

  /** Mines in row `j` among columns `x - 1 .. x + 1`, leaving out `(x, y)` itself. */
  function RowWindow(g: Grid, x: int, y: int, j: int): nat
    requires g.Wf()
  {
    MinedBit(g, x - 1, j) + (if j != y then MinedBit(g, x, j) else 0) + MinedBit(g, x + 1, j)
  }

  /** Mines in the 3 x 3 window centred on `(x, y)`, without its centre. */
  function WindowMines(g: Grid, x: int, y: int): nat
    requires g.Wf()
  {
    RowWindow(g, x, y, y - 1) + RowWindow(g, x, y, y) + RowWindow(g, x, y, y + 1)
  }

  /** "This square is mined and is a neighbour of `c`", read from the square's own location. */
  function MinedNeighbourOf(c: Location): SquareState -> bool {
    (s: SquareState) => s.undermined && Adjacent(c, s.location)
  }

  /** A direction's piece holds that square's mine when its bounds test says the square is on the board. */
  lemma MinedAmongPiece(g: Grid, b: bool, i: int, j: int)
    requires g.Wf() && b == g.InBounds(i, j)
    ensures MinedAmong(g, Piece(b, Location(i, j))) == MinedBit(g, i, j)
  {
    if b {
      assert [Location(i, j)][..0] == [];
    }
  }

  lemma MinedAmongFour(g: Grid, p1: seq<Location>, p2: seq<Location>, p3: seq<Location>, p4: seq<Location>)
    requires g.Wf()
    ensures MinedAmong(g, p1 + p2 + p3 + p4) ==
            MinedAmong(g, p1) + MinedAmong(g, p2) + MinedAmong(g, p3) + MinedAmong(g, p4)
  {
    MinedAmongAppend(g, p1, p2);
    MinedAmongAppend(g, p1 + p2, p3);
    MinedAmongAppend(g, p1 + p2 + p3, p4);
  }

  /** The eight directions' mines, each 0 when that direction is off the board. */
  function DirectionMines(g: Grid, x: int, y: int): nat
    requires g.Wf()
  {
    MinedBit(g, x, y - 1) + MinedBit(g, x + 1, y - 1) + MinedBit(g, x + 1, y) + MinedBit(g, x + 1, y + 1) +
    MinedBit(g, x, y + 1) + MinedBit(g, x - 1, y + 1) + MinedBit(g, x - 1, y) + MinedBit(g, x - 1, y - 1)
  }

  lemma FirstFourMines(g: Grid, x: int, y: int)
    requires g.Wf() && g.InBounds(x, y)
    ensures MinedAmong(g, FirstFour(g.width, g.height, x, y)) ==
            MinedBit(g, x, y - 1) + MinedBit(g, x + 1, y - 1) + MinedBit(g, x + 1, y) + MinedBit(g, x + 1, y + 1)
  {
    var width, height := g.width, g.height;
    MinedAmongFour(g,
      Piece(y - 1 >= 0, Location(x, y - 1)),
      Piece(y - 1 >= 0 && x + 1 < width, Location(x + 1, y - 1)),
      Piece(x + 1 < width, Location(x + 1, y)),
      Piece(x + 1 < width && y + 1 < height, Location(x + 1, y + 1)));
    MinedAmongPiece(g, y - 1 >= 0, x, y - 1);
    MinedAmongPiece(g, y - 1 >= 0 && x + 1 < width, x + 1, y - 1);
    MinedAmongPiece(g, x + 1 < width, x + 1, y);
    MinedAmongPiece(g, x + 1 < width && y + 1 < height, x + 1, y + 1);
  }

  lemma LastFourMines(g: Grid, x: int, y: int)
    requires g.Wf() && g.InBounds(x, y)
    ensures MinedAmong(g, LastFour(g.width, g.height, x, y)) ==
            MinedBit(g, x, y + 1) + MinedBit(g, x - 1, y + 1) + MinedBit(g, x - 1, y) + MinedBit(g, x - 1, y - 1)
  {
    var width, height := g.width, g.height;
    MinedAmongFour(g,
      Piece(y + 1 < height, Location(x, y + 1)),
      Piece(x - 1 >= 0 && y + 1 < height, Location(x - 1, y + 1)),
      Piece(x - 1 >= 0, Location(x - 1, y)),
      Piece(x - 1 >= 0 && y - 1 >= 0, Location(x - 1, y - 1)));
    MinedAmongPiece(g, y + 1 < height, x, y + 1);
    MinedAmongPiece(g, x - 1 >= 0 && y + 1 < height, x - 1, y + 1);
    MinedAmongPiece(g, x - 1 >= 0, x - 1, y);
    MinedAmongPiece(g, x - 1 >= 0 && y - 1 >= 0, x - 1, y - 1);
  }

  lemma NeighbourMinesByDirection(g: Grid, x: int, y: int)
    requires g.Wf() && g.InBounds(x, y)
    ensures NeighbourMines(g, x, y) == DirectionMines(g, x, y)
  {
    MinedAmongAppend(g, FirstFour(g.width, g.height, x, y), LastFour(g.width, g.height, x, y));
    FirstFourMines(g, x, y);
    LastFourMines(g, x, y);
  }

  lemma WindowMinesByDirection(g: Grid, x: int, y: int)
    requires g.Wf()
    ensures WindowMines(g, x, y) == DirectionMines(g, x, y)
  {
  }

  /** The direction-by-direction count of `describeSquareAt` equals the 3 x 3 window count. */
  lemma NeighbourMinesIsWindow(g: Grid, x: int, y: int)
    requires g.Wf() && g.InBounds(x, y)
    ensures NeighbourMines(g, x, y) == WindowMines(g, x, y)
  {
    NeighbourMinesByDirection(g, x, y);
    WindowMinesByDirection(g, x, y);
  }

  lemma {:induction false} RowCountIsWindow(g: Grid, x: int, y: int, j: int, n: int)
    requires g.Wf() && g.Located() && g.InBounds(x, y) && 0 <= j < g.height && 0 <= n <= g.width
    ensures g.CountRow(MinedNeighbourOf(Location(x, y)), j, n) ==
            if -1 <= j - y <= 1 then
              Bit(x - 1 < n && MinedBit(g, x - 1, j) == 1)
              + (if j != y && x < n then MinedBit(g, x, j) else 0)
              + Bit(x + 1 < n && MinedBit(g, x + 1, j) == 1)
            else 0
    decreases n
  {
    if n > 0 {
      RowCountIsWindow(g, x, y, j, n - 1);
      assert g.At(n - 1, j).location == Location(n - 1, j);
    }
  }

  lemma RowCountIsRowWindow(g: Grid, x: int, y: int, j: int)
    requires g.Wf() && g.Located() && g.InBounds(x, y) && 0 <= j < g.height
    ensures g.CountRow(MinedNeighbourOf(Location(x, y)), j, g.width) ==
            if -1 <= j - y <= 1 then RowWindow(g, x, y, j) else 0
  {
    RowCountIsWindow(g, x, y, j, g.width);
  }

  /** The window's mines that lie in rows `0 .. m - 1`. */
  function WindowRowsBelow(g: Grid, x: int, y: int, m: int): nat
    requires g.Wf() && 0 <= m
    decreases m
  {
    if m == 0 then 0
    else WindowRowsBelow(g, x, y, m - 1) + (if -1 <= m - 1 - y <= 1 then RowWindow(g, x, y, m - 1) else 0)
  }

  lemma {:induction false} RowsCountIsWindow(g: Grid, x: int, y: int, m: int)
    requires g.Wf() && g.Located() && g.InBounds(x, y) && 0 <= m <= g.height
    ensures g.CountRows(MinedNeighbourOf(Location(x, y)), m) == WindowRowsBelow(g, x, y, m)
    decreases m
  {
    if m > 0 {
      RowsCountIsWindow(g, x, y, m - 1);
      RowCountIsRowWindow(g, x, y, m - 1);
    }
  }

  lemma {:induction false} WindowRowsBelowValue(g: Grid, x: int, y: int, m: int)
    requires g.Wf() && 0 <= m
    ensures WindowRowsBelow(g, x, y, m) ==
            (if y - 1 < m then RowWindow(g, x, y, y - 1) else 0)
            + (if 0 <= y < m then RowWindow(g, x, y, y) else 0)
            + (if 0 <= y + 1 < m then RowWindow(g, x, y, y + 1) else 0)
    decreases m
  {
    if m > 0 {
      WindowRowsBelowValue(g, x, y, m - 1);
    }
  }

  /**
   * The number `describeSquareAt` shows equals a brute-force count over the whole
   * board of the mined squares adjacent to `(x, y)`.
   */
  lemma NeighbourMinesReference(g: Grid, x: int, y: int)
    requires g.Wf() && g.Located() && g.InBounds(x, y)
    ensures NeighbourMines(g, x, y) == g.Count(MinedNeighbourOf(Location(x, y)))
  {
    NeighbourMinesIsWindow(g, x, y);
    RowsCountIsWindow(g, x, y, g.height);
    WindowRowsBelowValue(g, x, y, g.height);
  }
}
