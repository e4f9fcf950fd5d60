/**
 * The Minesweeper board as the game keeps it: a grid of booleans marking
 * mines, the set of mine cells, and the set of mines the player has flagged.
 */
module Game {
  import opened Options
  import opened Cells
  import opened PyLists

  class Minesweeper {
    const height: int
    const width: int
    const board: array2<bool>
    var mines: set<Cell>
    var minesFound: set<Cell>

    /** The grid has the board's size and marks exactly the cells in `mines`. */
    ghost predicate Valid()
      reads this, board
    {
      && board.Length0 == height && board.Length1 == width
      && forall c :: c in mines <==> InBounds(c, height, width) && board[c.row, c.col]
    }

    /** A game over a given layout (the random placement of mines is not modelled). */
    constructor (grid: array2<bool>, layout: set<Cell>)
      requires forall c :: c in layout <==> InBounds(c, grid.Length0, grid.Length1) && grid[c.row, c.col]
      ensures Valid()
      ensures height == grid.Length0 && width == grid.Length1 && board == grid
      ensures mines == layout && minesFound == {}
    {
      height, width, board := grid.Length0, grid.Length1, grid;
      mines, minesFound := layout, {};
    }

    /** Whether the cell holds a mine; an index outside Python's range raises IndexError (`None`). */
    function IsMine(cell: Cell): (r: Option<bool>)
      requires Valid()
      reads this, board
      ensures r.Some? <==> -height <= cell.row < height && -width <= cell.col < width
      ensures InBounds(cell, height, width) ==> r == Some(cell in mines)
      ensures r.Some? ==> r.value == (Cell(PyIndex(cell.row, height).value, PyIndex(cell.col, width).value) in mines)
    {
      match (PyIndex(cell.row, height), PyIndex(cell.col, width))
      case (Some(i), Some(j)) => Some(board[i, j])
      case _ => None
    }

    /** The mine cells around `cell`. */
    ghost function Around(cell: Cell): set<Cell>
      reads this
    {
      Neighbours(cell, height, width) * mines
    }

    /** `d` is an in-bounds mine cell next to `cell`. */
    ghost predicate MineAround(cell: Cell, d: Cell)
      reads this
    {
      Adjacent(cell, d) && InBounds(d, height, width) && d in mines
    }

    /** The mine cells around `cell` that lie in row `i`. */
    ghost function AroundInRow(cell: Cell, i: int): set<Cell>
      reads this
    {
      set d | d in Around(cell) && d.row == i
    }

    /** The number of mines among the in-bounds cells around `cell`. */
    method NearbyMines(cell: Cell) returns (count: int)
      requires Valid()
      ensures count == |Neighbours(cell, height, width) * mines|
      ensures 0 <= count <= 8
    {
      count := 0;
      ghost var seen: set<Cell> := {};
      var i := cell.row - 1;
      while i < cell.row + 2
        invariant cell.row - 1 <= i <= cell.row + 2
        invariant count == |seen|
        invariant forall d :: d in seen <==> d in Around(cell) && d.row < i
      {
        var n := RowMines(cell, i);
        assert seen !! AroundInRow(cell, i);
        count := count + n;
        seen := seen + AroundInRow(cell, i);
        i := i + 1;
      }
      assert seen == Around(cell);
      SubsetCard(Around(cell), Neighbours(cell, height, width));
      NeighboursAtMostEight(cell, height, width);
    }

    /** The inner loop of `nearby_mines`: the mines around `cell` in row `i`. */
    method RowMines(cell: Cell, i: int) returns (count: int)
      requires Valid() && cell.row - 1 <= i <= cell.row + 1
      ensures count == |AroundInRow(cell, i)|
    {
      count := 0;
      ghost var seen: set<Cell> := {};
      var j := cell.col - 1;
      while j < cell.col + 2
        invariant cell.col - 1 <= j <= cell.col + 2
        invariant count == |seen|
        invariant forall d :: d in seen <==> MineAround(cell, d) && d.row == i && d.col < j
      {
        if Cell(i, j) != cell && 0 <= i < height && 0 <= j < width {
          if board[i, j] {
            assert MineAround(cell, Cell(i, j));
            count := count + 1;
            seen := seen + {Cell(i, j)};
          }
        }
        j := j + 1;
      }
      assert seen == AroundInRow(cell, i);
    }

    /** The player has won when the flagged cells are exactly the mines. */
    function Won(): (r: bool)
      reads this, board
      ensures r <==> (forall c :: c in mines <==> c in minesFound)
      ensures Valid() ==> (r <==> forall c :: c in minesFound <==> InBounds(c, height, width) && board[c.row, c.col])
    {
      minesFound == mines
    }
  }
}
