/** Board coordinates of the Minesweeper game and the 3x3 neighbourhood of a cell. */
module Cells {

  /** A `(row, column)` pair, 0-indexed. */
  datatype Cell = Cell(row: int, col: int)

  /** `c` lies on a board of the given height and width. */
  predicate InBounds(c: Cell, height: int, width: int) {
    0 <= c.row < height && 0 <= c.col < width
  }

  /** `d` is within one row and one column of `c`, and is not `c` itself. */
  predicate Adjacent(c: Cell, d: Cell) {
    d != c && c.row - 1 <= d.row <= c.row + 1 && c.col - 1 <= d.col <= c.col + 1
  }

  /** The eight cells around `c`, whether on the board or not. */
  function Ring(c: Cell): set<Cell> {
    {Cell(c.row - 1, c.col - 1), Cell(c.row - 1, c.col), Cell(c.row - 1, c.col + 1),
     Cell(c.row, c.col - 1), Cell(c.row, c.col + 1),
     Cell(c.row + 1, c.col - 1), Cell(c.row + 1, c.col), Cell(c.row + 1, c.col + 1)}
  }

  /** The in-bounds cells adjacent to `c`: at most eight of them. */
  function Neighbours(c: Cell, height: int, width: int): (n: set<Cell>)
    ensures forall d :: d in n <==> Adjacent(c, d) && InBounds(d, height, width)
  {
    set d | d in Ring(c) && InBounds(d, height, width)
  }

  /** A cell has at most eight neighbours. */
  lemma NeighboursAtMostEight(c: Cell, height: int, width: int)
    ensures |Neighbours(c, height, width)| <= 8
  {
    assert |Ring(c)| <= 8;
    SubsetCard(Neighbours(c, height, width), Ring(c));
  }

  /** Leaving out any known cells, a neighbourhood still has at most eight cells. */
  lemma FilteredAtMostEight(c: Cell, height: int, width: int, known: set<Cell>)
    ensures |Neighbours(c, height, width) - known| <= 8
  {
    SubsetCard(Neighbours(c, height, width) - known, Neighbours(c, height, width));
    NeighboursAtMostEight(c, height, width);
  }

  lemma SubsetCard<T>(a: set<T>, b: set<T>)
    requires a <= b
    ensures |a| <= |b|
    ensures a != b ==> |a| < |b|
  {
    assert b == a + (b - a);
    if a != b {
      var x :| x in b - a;
    }
  }
}
