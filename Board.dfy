/**
 * The board: a `width x height` array of squares, mine placement by rejection
 * sampling, the win test, the text shown for one square, and the discover-all step
 * of `displayClear`.
 *
 * Each operation of `class Board` is proved against a function on the board's
 * value (`Grid`, see module Grids); the properties of the game are lemmas about
 * those functions.
 */
module Boards {
  import opened Decimal
  import opened Locations
  import opened Squares
  import opened Grids
  import opened Neighbourhood

  // ----- The board's value before and after each operation -----

  /** The value of a freshly constructed board: every square new, at its own location. */
  function EmptyGrid(width: nat, height: nat): (g: Grid)
    ensures g.Wf() && g.Located() && g.width == width && g.height == height
    ensures forall x, y :: g.InBounds(x, y) ==> g.At(x, y) == NewState(Location(x, y))
  {
    Grid(width, height, seq(width, (x: int) => seq(height, (y: int) => NewState(Location(x, y)))))
  }

  /** No square of a fresh board is mined or discovered, and none has a flag. */
  lemma EmptyGridCounts(width: nat, height: nat)
    ensures EmptyGrid(width, height).Count(IsMined) == 0
    ensures EmptyGrid(width, height).Count(IsSafe) == width * height
    ensures EmptyGrid(width, height).Count(IsUndiscovered) == width * height
  {
    var g := EmptyGrid(width, height);
    CountExtremes(g, IsMined);
    CountMinedSafe(g);
    CountExtremes(g, IsUndiscovered);
  }

  /** Every draw of the random source lies on a `width x height` board. */
  predicate DrawsOnBoard(width: int, height: int, draws: seq<Location>) {
    forall d :: d in draws ==> 0 <= d.x < width && 0 <= d.y < height
  }

  /** The board after placement, and how many of the requested mines are still missing. */
  datatype Placement = Placement(grid: Grid, unplaced: nat)

  /**
   * `k` more mines placed by rejection sampling from `draws`: a draw that falls on
   * an unmined square mines it, a draw that falls on a mined square is rejected and
   * costs nothing. Placement stops when no mine is left to place or the draws run out.
   */
  function PlaceMines(g: Grid, k: nat, draws: seq<Location>): (p: Placement)
    requires g.Wf() && DrawsOnBoard(g.width, g.height, draws)
    ensures p.grid.Wf() && p.grid.width == g.width && p.grid.height == g.height
    ensures p.unplaced <= k
    decreases |draws|
  {
    if k == 0 || draws == [] then Placement(g, k)
    else
      var d := draws[0];
      if g.At(d.x, d.y).undermined then PlaceMines(g, k, draws[1..])
      else PlaceMines(g.Set(d.x, d.y, Mined(g.At(d.x, d.y))), k - 1, draws[1..])
  }

  /** The first draw of a placement, unfolded: the step `Init`'s loop takes. */
  lemma PlaceMinesStep(g: Grid, k: nat, draws: seq<Location>)
    requires g.Wf() && DrawsOnBoard(g.width, g.height, draws) && k > 0 && draws != []
    ensures var d := draws[0];
            PlaceMines(g, k, draws) ==
              if g.At(d.x, d.y).undermined then PlaceMines(g, k, draws[1..])
              else PlaceMines(g.Set(d.x, d.y, Mined(g.At(d.x, d.y))), k - 1, draws[1..])
  {
  }

  /**
   * One accepted draw: mining an unmined square adds exactly one mined square and
   * changes no other square.
   */
  lemma MiningAddsOneMine(g: Grid, x: int, y: int)
    requires g.Wf() && g.InBounds(x, y) && !g.At(x, y).undermined
    ensures var h := g.Set(x, y, Mined(g.At(x, y)));
            h.Count(IsMined) == g.Count(IsMined) + 1 &&
            h.At(x, y).undermined && h.At(x, y).discovered == g.At(x, y).discovered &&
            h.At(x, y).flag == g.At(x, y).flag &&
            forall i, j :: g.InBounds(i, j) && (i != x || j != y) ==> h.At(i, j) == g.At(i, j)
  {
    CountUpdate(g, IsMined, x, y, Mined(g.At(x, y)));
  }

  /**
   * Asking for more mines than there are safe squares leaves mines unplaced whatever
   * the draws: every draw on a full board is rejected.
   */
  lemma PlaceMinesShortOfSafe(g: Grid, k: nat, draws: seq<Location>)
    requires g.Wf() && DrawsOnBoard(g.width, g.height, draws)
    requires k > g.Count(IsSafe)
    ensures PlaceMines(g, k, draws).unplaced >= k - g.Count(IsSafe) > 0
  {
    PlaceMinesCount(g, k, draws);
    CountMinedSafe(g);
    CountExtremes(PlaceMines(g, k, draws).grid, IsMined);
  }

  /** Every mine placed is one more mined square: none is lost and none is counted twice. */
  lemma {:induction false} PlaceMinesCount(g: Grid, k: nat, draws: seq<Location>)
    requires g.Wf() && DrawsOnBoard(g.width, g.height, draws)
    ensures PlaceMines(g, k, draws).grid.Count(IsMined) + PlaceMines(g, k, draws).unplaced == g.Count(IsMined) + k
    decreases |draws|
  {
    if k != 0 && draws != [] {
      var d := draws[0];
      if g.At(d.x, d.y).undermined {
        PlaceMinesCount(g, k, draws[1..]);
      } else {
        var s := Mined(g.At(d.x, d.y));
        CountUpdate(g, IsMined, d.x, d.y, s);
        PlaceMinesCount(g.Set(d.x, d.y, s), k - 1, draws[1..]);
      }
    }
  }

  /**
   * Placement only mines squares: each square keeps its state or becomes its mined
   * version, so no square is unmined and no discovered mark or flag changes.
   */
  lemma {:induction false} PlaceMinesOnlyMines(g: Grid, k: nat, draws: seq<Location>)
    requires g.Wf() && DrawsOnBoard(g.width, g.height, draws)
    ensures forall x, y :: g.InBounds(x, y) ==>
              PlaceMines(g, k, draws).grid.At(x, y) == g.At(x, y) ||
              PlaceMines(g, k, draws).grid.At(x, y) == Mined(g.At(x, y))
    decreases |draws|
  {
    if k != 0 && draws != [] {
      var d := draws[0];
      if g.At(d.x, d.y).undermined {
        PlaceMinesOnlyMines(g, k, draws[1..]);
      } else {
        var h := g.Set(d.x, d.y, Mined(g.At(d.x, d.y)));
        PlaceMinesOnlyMines(h, k - 1, draws[1..]);
        forall x, y | g.InBounds(x, y)
          ensures PlaceMines(g, k, draws).grid.At(x, y) == g.At(x, y) ||
                  PlaceMines(g, k, draws).grid.At(x, y) == Mined(g.At(x, y))
        {
          MinedProperties(g.At(x, y));
        }
      }
    }
  }

  /** While mines are still missing, every square drawn so far is mined. */
  lemma {:induction false} PlaceMinesDrawnAreMined(g: Grid, k: nat, draws: seq<Location>)
    requires g.Wf() && DrawsOnBoard(g.width, g.height, draws)
    requires PlaceMines(g, k, draws).unplaced > 0
    ensures forall d :: d in draws ==> PlaceMines(g, k, draws).grid.At(d.x, d.y).undermined
    decreases |draws|
  {
    if draws != [] {
      var d := draws[0];
      var h := if g.At(d.x, d.y).undermined then g else g.Set(d.x, d.y, Mined(g.At(d.x, d.y)));
      var k' := if g.At(d.x, d.y).undermined then k else k - 1;
      assert PlaceMines(g, k, draws) == PlaceMines(h, k', draws[1..]);
      PlaceMinesDrawnAreMined(h, k', draws[1..]);
      PlaceMinesOnlyMines(h, k', draws[1..]);
      assert h.At(d.x, d.y).undermined;
      assert forall e :: e in draws ==> e == d || e in draws[1..];
    }
  }

  /**
   * When the draws reach every square and at most as many mines are requested as
   * there are unmined squares, placement places them all.
   */
  lemma PlaceMinesComplete(g: Grid, k: nat, draws: seq<Location>)
    requires g.Wf() && DrawsOnBoard(g.width, g.height, draws)
    requires forall x, y :: g.InBounds(x, y) ==> Location(x, y) in draws
    requires k <= g.Count(IsSafe)
    ensures PlaceMines(g, k, draws).unplaced == 0
  {
    var p := PlaceMines(g, k, draws);
    PlaceMinesCount(g, k, draws);
    CountMinedSafe(g);
    if p.unplaced > 0 {
      PlaceMinesDrawnAreMined(g, k, draws);
      forall x, y | p.grid.InBounds(x, y)
        ensures IsMined(p.grid.At(x, y))
      {
        assert Location(x, y) in draws;
      }
      CountExtremes(p.grid, IsMined);
    }
  }

  /**
   * On a fresh board whose draws reach every square, asking for `n` mines with
   * `0 <= n <= width * height` leaves exactly `n` mined squares, and asking for
   * `width * height` mines mines every square.
   */
  lemma FreshBoardMineCount(width: nat, height: nat, n: nat, draws: seq<Location>)
    requires n <= width * height && DrawsOnBoard(width, height, draws)
    requires forall x, y :: 0 <= x < width && 0 <= y < height ==> Location(x, y) in draws
    ensures PlaceMines(EmptyGrid(width, height), n, draws).unplaced == 0
    ensures PlaceMines(EmptyGrid(width, height), n, draws).grid.Count(IsMined) == n
    ensures n == width * height ==>
              forall x, y :: 0 <= x < width && 0 <= y < height ==>
                PlaceMines(EmptyGrid(width, height), n, draws).grid.At(x, y).undermined
  {
    var g := EmptyGrid(width, height);
    EmptyGridCounts(width, height);
    PlaceMinesComplete(g, n, draws);
    PlaceMinesCount(g, n, draws);
    CountExtremes(PlaceMines(g, n, draws).grid, IsMined);
  }

  /**
   * The win test compares counts; when no mined square has been discovered, the
   * counts agree exactly when every square still hidden is a mine.
   */
  lemma WinMeansOnlyMinesHidden(g: Grid)
    requires g.Wf()
    requires forall x, y :: g.InBounds(x, y) && g.At(x, y).undermined ==> !g.At(x, y).discovered
    ensures g.Count(IsMined) <= g.Count(IsUndiscovered)
    ensures g.Count(IsUndiscovered) == g.Count(IsMined) <==>
              forall x, y :: g.InBounds(x, y) && !g.At(x, y).discovered ==> g.At(x, y).undermined
  {
    CountMonotone(g, IsMined, IsUndiscovered);
  }

  /**
   * The win test looks only at counts: a board whose one mine has been discovered
   * and whose one safe square is still hidden passes it.
   */
  lemma WinIgnoresDiscoveredMine()
    ensures var g := Grid(2, 1, [[Mined(Discovered(NewState(Location(0, 0))))], [NewState(Location(1, 0))]]);
            g.Wf() && g.At(0, 0).undermined && g.At(0, 0).discovered && !g.At(1, 0).discovered &&
            g.Count(IsUndiscovered) == g.Count(IsMined)
  {
  }

  /** The text `describeSquareAt` shows for the square at `(x, y)`. */
  function Glyph(g: Grid, x: int, y: int): string
    requires g.Wf() && g.InBounds(x, y)
  {
    var s := g.At(x, y);
    if s.discovered then
      if !s.undermined then " " + NatToString(NeighbourMines(g, x, y)) + " " else " * "
    else if s.flag then " |>"
    else " ? "
  }

  /**
   * Every text is three characters wide and tells the square's state apart:
   * `" * "` a discovered mine, `" |>"` a hidden flagged square, `" ? "` a hidden
   * square without a flag, and a digit for a discovered safe square, the digit
   * being its number of mined neighbours. A flag never shows on a discovered square.
   */
  lemma GlyphCases(g: Grid, x: int, y: int)
    requires g.Wf() && g.InBounds(x, y)
    ensures var r, s := Glyph(g, x, y), g.At(x, y);
            |r| == 3 && r[0] == ' ' &&
            (r == " * " <==> s.discovered && s.undermined) &&
            (r == " |>" <==> !s.discovered && s.flag) &&
            (r == " ? " <==> !s.discovered && !s.flag) &&
            (IsDigit(r[1]) <==> s.discovered && !s.undermined) &&
            (IsDigit(r[1]) ==> r[2] == ' ' && DigitValue(r[1]) == NeighbourMines(g, x, y))
  {
    if g.At(x, y).discovered && !g.At(x, y).undermined {
      NeighbourMinesBounds(g, x, y);
      var t := NatToString(NeighbourMines(g, x, y));
      assert |t| == 1 && IsDigit(t[0]);
      var r := Glyph(g, x, y);
      assert r == [' ', t[0], ' '];
      assert r[1] != '*' && r[1] != '|' && r[1] != '?';
    }
  }

  /** The board after the loop of `displayClear`. */
  function DiscoverAll(g: Grid): (h: Grid)
    requires g.Wf()
    ensures h.Wf() && h.width == g.width && h.height == g.height
    ensures forall x, y :: g.InBounds(x, y) ==> h.At(x, y) == Discovered(g.At(x, y))
  {
    Grid(g.width, g.height, seq(g.width, (x: int) requires 0 <= x < g.width =>
      seq(g.height, (y: int) requires 0 <= y < g.height => Discovered(g.At(x, y)))))
  }

  /**
   * Discovering everything leaves no square hidden and keeps every mine, flag and
   * location; the win test then holds exactly when the board has no mine.
   */
  lemma DiscoverAllProperties(g: Grid)
    requires g.Wf()
    ensures forall x, y :: g.InBounds(x, y) ==>
              DiscoverAll(g).At(x, y).discovered &&
              DiscoverAll(g).At(x, y).undermined == g.At(x, y).undermined &&
              DiscoverAll(g).At(x, y).flag == g.At(x, y).flag &&
              DiscoverAll(g).At(x, y).location == g.At(x, y).location
    ensures DiscoverAll(g).Count(IsUndiscovered) == 0
    ensures DiscoverAll(g).Count(IsMined) == g.Count(IsMined)
    ensures DiscoverAll(g).Count(IsUndiscovered) == DiscoverAll(g).Count(IsMined) <==> g.Count(IsMined) == 0
  {
    var h := DiscoverAll(g);
    CountExtremes(h, IsUndiscovered);
    RowsSameMines(g, h, g.height);
  }

  lemma {:induction false} RowsSameMines(g: Grid, h: Grid, y: int)
    requires g.Wf() && h.Wf() && g.width == h.width && g.height == h.height && 0 <= y <= g.height
    requires forall i, j :: g.InBounds(i, j) ==> h.At(i, j).undermined == g.At(i, j).undermined
    ensures h.CountRows(IsMined, y) == g.CountRows(IsMined, y)
    decreases y
  {
    if y > 0 {
      RowsSameMines(g, h, y - 1);
      RowSameMines(g, h, y - 1, g.width);
    }
  }

  lemma {:induction false} RowSameMines(g: Grid, h: Grid, y: int, x: int)
    requires g.Wf() && h.Wf() && g.width == h.width && g.height == h.height
    requires 0 <= y < g.height && 0 <= x <= g.width
    requires forall i, j :: g.InBounds(i, j) ==> h.At(i, j).undermined == g.At(i, j).undermined
    ensures h.CountRow(IsMined, y, x) == g.CountRow(IsMined, y, x)
    decreases x
  {
    if x > 0 {
      RowSameMines(g, h, y, x - 1);
    }
  }

  /** Every square's content says Mine exactly when the square is undermined. */
  ghost predicate AllConsistent(g: Grid)
    requires g.Wf()
  {
    forall x, y :: g.InBounds(x, y) ==> Consistent(g.At(x, y))
  }

  /** The content invariant of a square holds on every square of a fresh board. */
  lemma FreshBoardConsistent(width: nat, height: nat)
    ensures AllConsistent(EmptyGrid(width, height))
  {
    var g := EmptyGrid(width, height);
    forall x, y | g.InBounds(x, y)
      ensures Consistent(g.At(x, y))
    {
      assert g.At(x, y) == NewState(Location(x, y));
    }
  }

  /** Placing mines and discovering every square keep the content invariant of every square. */
  lemma ConsistencyKept(g: Grid, k: nat, draws: seq<Location>)
    requires g.Wf() && DrawsOnBoard(g.width, g.height, draws) && AllConsistent(g)
    ensures AllConsistent(PlaceMines(g, k, draws).grid)
    ensures AllConsistent(DiscoverAll(g))
  {
    PlaceMinesOnlyMines(g, k, draws);
    var h := PlaceMines(g, k, draws).grid;
    forall x, y | h.InBounds(x, y)
      ensures Consistent(h.At(x, y)) && Consistent(DiscoverAll(g).At(x, y))
    {
      MinedProperties(g.At(x, y));
      DiscoveredProperties(g.At(x, y));
    }
  }

  /**
   * The list `describeSquareAt` builds: the neighbours of `(x, y)` that lie on a
   * `width x height` board, direction by direction.
   */
  method NeighbourLocations(width: int, height: int, x: int, y: int) returns (locations: seq<Location>)
    requires 0 <= x < width && 0 <= y < height
    ensures locations == NeighbourList(width, height, x, y)
  {
    locations := [];
    ghost var north := Piece(y - 1 >= 0, Location(x, y - 1));
    ghost var northEast := Piece(y - 1 >= 0 && x + 1 < width, Location(x + 1, y - 1));
    ghost var east := Piece(x + 1 < width, Location(x + 1, y));
    ghost var southEast := Piece(x + 1 < width && y + 1 < height, Location(x + 1, y + 1));
    // North
    if y - 1 >= 0 {
      locations := locations + [Location(x, y - 1)];
    }
    assert locations == north;
    // North east
    if y - 1 >= 0 && x + 1 < width {
      locations := locations + [Location(x + 1, y - 1)];
    }
    assert locations == north + northEast;
    // East
    if x + 1 < width {
      locations := locations + [Location(x + 1, y)];
    }
    assert locations == north + northEast + east;
    // South east
    if x + 1 < width && y + 1 < height {
      locations := locations + [Location(x + 1, y + 1)];
    }
    assert locations == north + northEast + east + southEast;
    assert locations == FirstFour(width, height, x, y);
    ghost var firstFour := locations;
    ghost var south := Piece(y + 1 < height, Location(x, y + 1));
    ghost var southWest := Piece(x - 1 >= 0 && y + 1 < height, Location(x - 1, y + 1));
    ghost var west := Piece(x - 1 >= 0, Location(x - 1, y));
    ghost var northWest := Piece(x - 1 >= 0 && y - 1 >= 0, Location(x - 1, y - 1));
    // South
    if y + 1 < height {
      locations := locations + [Location(x, y + 1)];
    }
    assert locations == firstFour + south;
    // South west
    if x - 1 >= 0 && y + 1 < height {
      locations := locations + [Location(x - 1, y + 1)];
    }
    assert locations == firstFour + south + southWest;
    // West
    if x - 1 >= 0 {
      locations := locations + [Location(x - 1, y)];
    }
    assert locations == firstFour + south + southWest + west;
    // North west
    if x - 1 >= 0 && y - 1 >= 0 {
      locations := locations + [Location(x - 1, y - 1)];
    }
    assert locations == firstFour + south + southWest + west + northWest;
    AppendFour(firstFour, south, southWest, west, northWest);
  }

  // ----- The board object -----

  /** How a call of `init` ends. */
  datatype InitOutcome =
    | TooManyMines            // the IllegalArgumentException: more mines than squares
    | Initialized             // every requested mine placed
    | OutOfDraws(missing: nat) // the supplied draws ran out with `missing` mines still to place

  /** Number of mines still to place when the loop counter of `init` is at `i`. */
  function Remaining(nbOfMines: int, i: int): nat {
    if nbOfMines - i + 1 < 0 then 0 else nbOfMines - i + 1
  }

  class Board {
    const width: int
    const height: int
    const squares: array2<Square?>
    /** The squares of the board, the objects its operations may change. */
    ghost const Repr: set<Square>

    /**
     * The array has the board's size and holds at every `(x, y)` its own square,
     * which records location `(x, y)`; the squares are therefore pairwise distinct.
     */
    ghost predicate Valid()
      reads squares, Repr
    {
      0 <= width && 0 <= height &&
      squares.Length0 == width && squares.Length1 == height &&
      forall x, y :: 0 <= x < width && 0 <= y < height ==>
        squares[x, y] != null && squares[x, y] in Repr &&
        squares[x, y].location == Location(x, y)
    }

    /** The squares held by the array: all that `init` and `displayClear` may change. */
    ghost function Footprint(): set<Square?>
      reads squares
    {
      set x, y | 0 <= x < squares.Length0 && 0 <= y < squares.Length1 :: squares[x, y]
    }

    /** The board's current value. */
    ghost function Snapshot(): (g: Grid)
      reads squares, Repr
      requires Valid()
      ensures g.Wf() && g.Located() && g.width == width && g.height == height
      ensures forall x, y :: 0 <= x < width && 0 <= y < height ==> g.At(x, y) == squares[x, y].State()
    {
      Grid(width, height, Columns(width))
    }

    /** The states of columns `0 .. n - 1`. */
    ghost function Columns(n: int): (cols: seq<seq<SquareState>>)
      reads squares, Repr
      requires Valid() && 0 <= n <= width
      ensures |cols| == n
      ensures forall x :: 0 <= x < n ==> |cols[x]| == height
      ensures forall x, y :: 0 <= x < n && 0 <= y < height ==> cols[x][y] == squares[x, y].State()
      decreases n
    {
      if n == 0 then [] else Columns(n - 1) + [Column(n - 1, height)]
    }

    /** The states of the squares `(x, 0) .. (x, n - 1)`. */
    ghost function Column(x: int, n: int): (col: seq<SquareState>)
      reads squares, Repr
      requires Valid() && 0 <= x < width && 0 <= n <= height
      ensures |col| == n
      ensures forall y :: 0 <= y < n ==> col[y] == squares[x, y].State()
      decreases n
    {
      if n == 0 then [] else Column(x, n - 1) + [squares[x, n - 1].State()]
    }

    /** A new board holds a new square at every location. */
    constructor (width: int, height: int)
      requires 0 <= width && 0 <= height
      ensures this.width == width && this.height == height
      ensures Valid() && fresh(Repr) && fresh(squares)
      ensures Snapshot() == EmptyGrid(width, height)
    {
      this.width := width;
      this.height := height;
      var res := new Square?[width, height];
      ghost var repr: set<Square> := {};
      var y := 0;
      while y < height
        invariant 0 <= y <= height
        invariant fresh(repr)
        invariant forall i, j :: 0 <= i < width && 0 <= j < y ==>
                    res[i, j] != null && res[i, j] in repr && res[i, j].Valid() &&
                    res[i, j].State() == NewState(Location(i, j))
      {
        var x := 0;
        while x < width
          invariant 0 <= x <= width
          invariant fresh(repr)
          invariant forall i, j :: 0 <= i < width && 0 <= j < y ==>
                      res[i, j] != null && res[i, j] in repr && res[i, j].Valid() &&
                      res[i, j].State() == NewState(Location(i, j))
          invariant forall i :: 0 <= i < x ==>
                      res[i, y] != null && res[i, y] in repr && res[i, y].Valid() &&
                      res[i, y].State() == NewState(Location(i, y))
        {
          var square := new Square(Location(x, y));
          res[x, y] := square;
          repr := repr + {square};
          x := x + 1;
        }
        y := y + 1;
      }
      squares := res;
      Repr := repr;
      new;
      GridExtensionality(Snapshot(), EmptyGrid(width, height));
    }

    /** `getSquareAt`: the square at `l` itself, which callers may then change. */
    function SquareAt(l: Location): (s: Square)
      reads squares, Repr
      requires Valid() && 0 <= l.x < width && 0 <= l.y < height
      ensures s in Repr && s.location == l && s.State() == Snapshot().At(l.x, l.y)
    {
      squares[l.x, l.y]
    }

    /**
     * One draw of `init`: mines the square at `l` unless it is mined already, and
     * tells whether it did.
     */
    method TryMine(l: Location) returns (placed: bool)
      requires Valid() && 0 <= l.x < width && 0 <= l.y < height
      modifies squares[l.x, l.y]
      ensures Valid()
      ensures placed <==> !old(Snapshot()).At(l.x, l.y).undermined
      ensures Snapshot() == if placed then old(Snapshot()).Set(l.x, l.y, Mined(old(Snapshot()).At(l.x, l.y)))
                            else old(Snapshot())
      ensures Snapshot().Count(IsMined) == old(Snapshot()).Count(IsMined) + (if placed then 1 else 0)
    {
      var s := SquareAt(l);
      if !s.IsUndermined() {
        ghost var g := Snapshot();
        s.Mine();
        GridExtensionality(Snapshot(), g.Set(l.x, l.y, Mined(g.At(l.x, l.y))));
        MiningAddsOneMine(g, l.x, l.y);
        placed := true;
      } else {
        placed := false;
      }
    }

    /**
     * `init`: refuses more mines than squares and changes nothing then; otherwise
     * draws locations from `draws` (the random source) and mines each drawn square
     * that is not mined yet, until `nbOfMines` squares have been mined or the draws
     * run out.
     */
    method Init(nbOfMines: int, draws: seq<Location>) returns (r: InitOutcome)
      requires Valid() && DrawsOnBoard(width, height, draws)
      modifies Footprint()
      ensures Valid()
      ensures r == TooManyMines <==> width * height < nbOfMines
      ensures r == TooManyMines ==> Snapshot() == old(Snapshot())
      ensures r != TooManyMines ==>
                var p := PlaceMines(old(Snapshot()), Remaining(nbOfMines, 1), draws);
                Snapshot() == p.grid && r == (if p.unplaced == 0 then Initialized else OutOfDraws(p.unplaced))
    {
      if width * height < nbOfMines {
        return TooManyMines;
      }
      ghost var g0 := Snapshot();
      var i := 1;
      var k := 0;
      while i <= nbOfMines && k < |draws|
        invariant Valid()
        invariant 0 <= k <= |draws|
        invariant 1 <= i && (i == 1 || i <= nbOfMines + 1)
        invariant PlaceMines(Snapshot(), Remaining(nbOfMines, i), draws[k..]) ==
                  PlaceMines(g0, Remaining(nbOfMines, 1), draws)
        decreases |draws| - k
      {
        ghost var g, rem, rest := Snapshot(), Remaining(nbOfMines, i), draws[k..];
        assert rest[0] == draws[k] && rest[1..] == draws[k + 1..];
        PlaceMinesStep(g, rem, rest);
        var placed := TryMine(draws[k]);
        k := k + 1;
        if !placed {
          i := i - 1;
        }
        i := i + 1;
        assert draws[k..] == rest[1..];
        assert Remaining(nbOfMines, i) == if placed then rem - 1 else rem;
      }
      if i <= nbOfMines {
        r := OutOfDraws(nbOfMines - i + 1);
      } else {
        r := Initialized;
      }
    }

    /** `win`: the number of hidden squares equals the number of mined squares. */
    method Win() returns (r: bool)
      requires Valid()
      ensures r <==> Snapshot().Count(IsUndiscovered) == Snapshot().Count(IsMined)
    {
      var n1 := 0;
      var n2 := 0;
      var y := 0;
      while y < height
        invariant 0 <= y <= height
        invariant n1 == Snapshot().CountRows(IsUndiscovered, y) && n2 == Snapshot().CountRows(IsMined, y)
      {
        var x := 0;
        while x < width
          invariant 0 <= x <= width
          invariant n1 == Snapshot().CountRows(IsUndiscovered, y) + Snapshot().CountRow(IsUndiscovered, y, x)
          invariant n2 == Snapshot().CountRows(IsMined, y) + Snapshot().CountRow(IsMined, y, x)
        {
          var s := SquareAt(Location(x, y));
          if !s.IsDiscovered() {
            n1 := n1 + 1;
          }
          if s.IsUndermined() {
            n2 := n2 + 1;
          }
          x := x + 1;
        }
        y := y + 1;
      }
      r := n1 == n2;
    }

    /** The loop of `describeSquareAt` that counts the mined squares among `locations`. */
    method CountMined(locations: seq<Location>) returns (n: nat)
      requires Valid()
      requires forall l :: l in locations ==> 0 <= l.x < width && 0 <= l.y < height
      ensures n == MinedAmong(Snapshot(), locations)
    {
      n := 0;
      for j := 0 to |locations|
        invariant n == MinedAmong(Snapshot(), locations[..j])
      {
        MinedAmongPrefix(Snapshot(), locations, j);
        if SquareAt(locations[j]).IsUndermined() {
          n := n + 1;
        }
      }
      assert locations[..|locations|] == locations;
    }

    /**
     * `describeSquareAt`: the three-character text for the square at `l`; for a
     * discovered safe square it lists the neighbours that are on the board and
     * counts the mined ones.
     */
    method DescribeSquareAt(l: Location) returns (r: string)
      requires Valid() && 0 <= l.x < width && 0 <= l.y < height
      ensures r == Glyph(Snapshot(), l.x, l.y)
    {
      var s := SquareAt(l);
      if s.IsDiscovered() {
        if !s.IsUndermined() {
          var x, y := l.x, l.y;
          var locations := NeighbourLocations(width, height, x, y);
          var n := CountMined(locations);
          r := " " + NatToString(n) + " ";
        } else {
          r := " * ";
        }
      } else if s.HasFlag() {
        r := " |>";
      } else {
        r := " ? ";
      }
    }

    /** One pass of the outer loop of `displayClear`: discovers every square of row `y`. */
    method DiscoverRow(y: int)
      requires Valid() && 0 <= y < height
      modifies Footprint()
      ensures Valid()
      ensures forall i, j :: 0 <= i < width && 0 <= j < height ==>
                squares[i, j].State() ==
                  if j == y then Discovered(old(Snapshot()).At(i, j)) else old(Snapshot()).At(i, j)
    {
      ghost var g0 := Snapshot();
      var x := 0;
      while x < width
        invariant 0 <= x <= width
        invariant Valid()
        invariant forall i, j :: 0 <= i < width && 0 <= j < height ==>
                    squares[i, j].State() == if j == y && i < x then Discovered(g0.At(i, j)) else g0.At(i, j)
      {
        var square := SquareAt(Location(x, y));
        square.Discover();
        assert square.State() == Discovered(g0.At(x, y));
        x := x + 1;
      }
    }

    /** The loop of `displayClear`: discovers every square of the board. */
    method DisplayClear()
      requires Valid()
      modifies Footprint()
      ensures Valid()
      ensures Snapshot() == DiscoverAll(old(Snapshot()))
    {
      ghost var g0 := Snapshot();
      var y := 0;
      while y < height
        invariant 0 <= y <= height
        invariant Valid()
        invariant forall i, j :: 0 <= i < width && 0 <= j < height ==>
                    squares[i, j].State() == if j < y then Discovered(g0.At(i, j)) else g0.At(i, j)
      {
        DiscoverRow(y);
        y := y + 1;
      }
      GridExtensionality(Snapshot(), DiscoverAll(g0));
    }
  }
}
