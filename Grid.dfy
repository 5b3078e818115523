/**
 * The value of a whole board at one moment: the state of the square at `(x, y)`
 * for every `0 <= x < width` and `0 <= y < height`, indexed `[x][y]` as the board's
 * array is, and counts of the squares with a given property.
 */
module Grids {
  import opened Locations
  import opened Squares

  predicate IsMined(s: SquareState) {
    s.undermined
  }

  predicate IsSafe(s: SquareState) {
    !s.undermined
  }

  predicate IsUndiscovered(s: SquareState) {
    !s.discovered
  }

  function Bit(b: bool): nat {
    if b then 1 else 0
  }

  datatype Grid = Grid(width: int, height: int, cells: seq<seq<SquareState>>) {

    predicate Wf() {
      0 <= width && 0 <= height && |cells| == width &&
      forall x :: 0 <= x < width ==> |cells[x]| == height
    }

    predicate InBounds(x: int, y: int) {
      0 <= x < width && 0 <= y < height
    }

    function At(x: int, y: int): SquareState
      requires Wf() && InBounds(x, y)
    {
      cells[x][y]
    }

    /** Every square records its own position. */
    predicate Located()
      requires Wf()
    {
      forall x, y :: 0 <= x < width && 0 <= y < height ==> At(x, y).location == Location(x, y)
    }

    /** The grid with the square at `(x, y)` replaced by `s` and every other square as it was. */
    function Set(x: int, y: int, s: SquareState): (g: Grid)
      requires Wf() && InBounds(x, y)
      ensures g.Wf() && g.width == width && g.height == height
      ensures forall i, j :: InBounds(i, j) ==> g.At(i, j) == if i == x && j == y then s else At(i, j)
    {
      Grid(width, height, cells[x := cells[x][y := s]])
    }

    /** Number of squares `(i, y)` with `i < x` that satisfy `p`. */
    function CountRow(p: SquareState -> bool, y: int, x: int): nat
      requires Wf() && 0 <= y < height && 0 <= x <= width
      decreases x
    {
      if x == 0 then 0 else CountRow(p, y, x - 1) + Bit(p(At(x - 1, y)))
    }

    /** Number of squares in the rows above row `y` that satisfy `p`. */
    function CountRows(p: SquareState -> bool, y: int): nat
      requires Wf() && 0 <= y <= height
      decreases y
    {
      if y == 0 then 0 else CountRows(p, y - 1) + CountRow(p, y - 1, width)
    }

    /** Number of squares of the grid that satisfy `p`. */
    function Count(p: SquareState -> bool): nat
      requires Wf()
    {
      CountRows(p, height)
    }
  }

  /** Two well-formed grids of the same size with the same squares are equal. */
  lemma GridExtensionality(g: Grid, h: Grid)
    requires g.Wf() && h.Wf() && g.width == h.width && g.height == h.height
    requires forall x, y :: g.InBounds(x, y) ==> g.At(x, y) == h.At(x, y)
    ensures g == h
  {
    forall x | 0 <= x < g.width
      ensures g.cells[x] == h.cells[x]
    {
      assert |g.cells[x]| == |h.cells[x]| == g.height;
      assert forall y :: 0 <= y < g.height ==> g.cells[x][y] == g.At(x, y) == h.At(x, y) == h.cells[x][y];
    }
  }

  lemma {:induction false} RowUpdate(g: Grid, p: SquareState -> bool, x0: int, y0: int, s: SquareState, y: int, x: int)
    requires g.Wf() && g.InBounds(x0, y0) && 0 <= y < g.height && 0 <= x <= g.width
    ensures g.Set(x0, y0, s).CountRow(p, y, x) + (if y == y0 && x0 < x then Bit(p(g.At(x0, y0))) else 0)
         == g.CountRow(p, y, x) + (if y == y0 && x0 < x then Bit(p(s)) else 0)
    decreases x
  {
    if x > 0 {
      RowUpdate(g, p, x0, y0, s, y, x - 1);
    }
  }

  lemma {:induction false} RowsUpdate(g: Grid, p: SquareState -> bool, x0: int, y0: int, s: SquareState, y: int)
    requires g.Wf() && g.InBounds(x0, y0) && 0 <= y <= g.height
    ensures g.Set(x0, y0, s).CountRows(p, y) + (if y0 < y then Bit(p(g.At(x0, y0))) else 0)
         == g.CountRows(p, y) + (if y0 < y then Bit(p(s)) else 0)
    decreases y
  {
    if y > 0 {
      RowsUpdate(g, p, x0, y0, s, y - 1);
      RowUpdate(g, p, x0, y0, s, y - 1, g.width);
    }
  }

  /** Replacing one square changes a count only by what that square contributes. */
  lemma CountUpdate(g: Grid, p: SquareState -> bool, x: int, y: int, s: SquareState)
    requires g.Wf() && g.InBounds(x, y)
    ensures g.Set(x, y, s).Count(p) + Bit(p(g.At(x, y))) == g.Count(p) + Bit(p(s))
  {
    RowsUpdate(g, p, x, y, s, g.height);
  }

  lemma {:induction false} RowMonotone(g: Grid, p: SquareState -> bool, q: SquareState -> bool, y: int, x: int)
    requires g.Wf() && 0 <= y < g.height && 0 <= x <= g.width
    requires forall i :: 0 <= i < g.width && p(g.At(i, y)) ==> q(g.At(i, y))
    ensures g.CountRow(p, y, x) <= g.CountRow(q, y, x)
    ensures g.CountRow(p, y, x) == g.CountRow(q, y, x) <==>
            forall i :: 0 <= i < x && q(g.At(i, y)) ==> p(g.At(i, y))
    decreases x
  {
    if x > 0 {
      RowMonotone(g, p, q, y, x - 1);
    }
  }

  lemma {:induction false} RowsMonotone(g: Grid, p: SquareState -> bool, q: SquareState -> bool, y: int)
    requires g.Wf() && 0 <= y <= g.height
    requires forall i, j :: g.InBounds(i, j) && p(g.At(i, j)) ==> q(g.At(i, j))
    ensures g.CountRows(p, y) <= g.CountRows(q, y)
    ensures g.CountRows(p, y) == g.CountRows(q, y) <==>
            forall i, j :: 0 <= i < g.width && 0 <= j < y && q(g.At(i, j)) ==> p(g.At(i, j))
    decreases y
  {
    if y > 0 {
      RowsMonotone(g, p, q, y - 1);
      RowMonotone(g, p, q, y - 1, g.width);
    }
  }

  /**
   * When every square satisfying `p` satisfies `q`, fewer squares satisfy `p`, and
   * equally many exactly when the two properties agree on every square.
   */
  lemma CountMonotone(g: Grid, p: SquareState -> bool, q: SquareState -> bool)
    requires g.Wf()
    requires forall x, y :: g.InBounds(x, y) && p(g.At(x, y)) ==> q(g.At(x, y))
    ensures g.Count(p) <= g.Count(q)
    ensures g.Count(p) == g.Count(q) <==> forall x, y :: g.InBounds(x, y) && q(g.At(x, y)) ==> p(g.At(x, y))
  {
    RowsMonotone(g, p, q, g.height);
  }

  lemma {:induction false} RowExtremes(g: Grid, p: SquareState -> bool, y: int, x: int)
    requires g.Wf() && 0 <= y < g.height && 0 <= x <= g.width
    ensures g.CountRow(p, y, x) <= x
    ensures g.CountRow(p, y, x) == 0 <==> forall i :: 0 <= i < x ==> !p(g.At(i, y))
    ensures g.CountRow(p, y, x) == x <==> forall i :: 0 <= i < x ==> p(g.At(i, y))
    decreases x
  {
    if x > 0 {
      RowExtremes(g, p, y, x - 1);
    }
  }

  lemma {:induction false} RowsExtremes(g: Grid, p: SquareState -> bool, y: int)
    requires g.Wf() && 0 <= y <= g.height
    ensures g.CountRows(p, y) <= y * g.width
    ensures g.CountRows(p, y) == 0 <==> forall i, j :: 0 <= i < g.width && 0 <= j < y ==> !p(g.At(i, j))
    ensures g.CountRows(p, y) == y * g.width <==> forall i, j :: 0 <= i < g.width && 0 <= j < y ==> p(g.At(i, j))
    decreases y
  {
    if y > 0 {
      RowsExtremes(g, p, y - 1);
      RowExtremes(g, p, y - 1, g.width);
      assert y * g.width == (y - 1) * g.width + g.width;
    }
  }

  /** A count lies between 0 and the number of squares, and reaches each end only when no square, or every square, satisfies `p`. */
  lemma CountExtremes(g: Grid, p: SquareState -> bool)
    requires g.Wf()
    ensures g.Count(p) <= g.width * g.height
    ensures g.Count(p) == 0 <==> forall x, y :: g.InBounds(x, y) ==> !p(g.At(x, y))
    ensures g.Count(p) == g.width * g.height <==> forall x, y :: g.InBounds(x, y) ==> p(g.At(x, y))
  {
    RowsExtremes(g, p, g.height);
    assert g.height * g.width == g.width * g.height;
  }

  lemma {:induction false} RowsMinedSafe(g: Grid, y: int)
    requires g.Wf() && 0 <= y <= g.height
    ensures g.CountRows(IsMined, y) + g.CountRows(IsSafe, y) == y * g.width
    decreases y
  {
    if y > 0 {
      RowsMinedSafe(g, y - 1);
      RowMinedSafe(g, y - 1, g.width);
      assert y * g.width == (y - 1) * g.width + g.width;
    }
  }

  lemma {:induction false} RowMinedSafe(g: Grid, y: int, x: int)
    requires g.Wf() && 0 <= y < g.height && 0 <= x <= g.width
    ensures g.CountRow(IsMined, y, x) + g.CountRow(IsSafe, y, x) == x
    decreases x
  {
    if x > 0 {
      RowMinedSafe(g, y, x - 1);
    }
  }

  /** Every square is either mined or safe, so the two counts add up to the number of squares. */
  lemma CountMinedSafe(g: Grid)
    requires g.Wf()
    ensures g.Count(IsMined) + g.Count(IsSafe) == g.width * g.height
  {
    RowsMinedSafe(g, g.height);
    assert g.height * g.width == g.width * g.height;
  }
}
