/** The maze as the screen holds it: a grid of cells indexed by row, then column. */
module Grid {
  import opened Cells

  /** A grid position, column first. */
  type Pos = (int, int)

  /** Every position of a grid `w` wide and `h` high. */
  function Coords(w: int, h: int): set<Pos>
  {
    set y, x | 0 <= y < h && 0 <= x < w :: (x, y)
  }

  /** `p` and `q` are next to each other horizontally or vertically. */
  predicate Adjacent(p: Pos, q: Pos)
  {
    (p.1 == q.1 && (p.0 == q.0 + 1 || q.0 == p.0 + 1)) ||
    (p.0 == q.0 && (p.1 == q.1 + 1 || q.1 == p.1 + 1))
  }

  /** Every position of the grid holds a cell of its own. */
  ghost predicate DistinctCells(a: array2<MazeCell>)
    reads a
  {
    forall y, x, y', x' | 0 <= y < a.Length0 && 0 <= x < a.Length1 && 0 <= y' < a.Length0 && 0 <= x' < a.Length1
      && (y, x) != (y', x') :: a[y, x] != a[y', x']
  }

  /** The cells on the grid. */
  ghost function CellsOf(a: array2<MazeCell>): set<MazeCell>
    reads a
  {
    set y, x | 0 <= y < a.Length0 && 0 <= x < a.Length1 :: a[y, x]
  }
}
