// The grid shared by maze generation and path solving: cell coordinates,
// the characters a cell can hold, passability and 4-directional walks.

module Grid {

  /** The characters a grid position holds. */
  const WALL: char := '|'
  const OPEN: char := ' '
  const ENTRANCE: char := 'E'
  const EXIT: char := 'S'
  const MARK: char := 'o'

  /** A coordinate pair: row `x`, column `y`. */
  datatype Cell = Cell(x: int, y: int)

  /** The "no parent" sentinel of the solver's parent table. */
  const NO_PARENT: Cell := Cell(-1, -1)

  /** The solver's direction tables: down, up, right, left. */
  const DX: seq<int> := [1, -1, 0, 0]
  const DY: seq<int> := [0, 0, 1, -1]

  predicate InGrid(mat: array2<char>, c: Cell)
  {
    0 <= c.x < mat.Length0 && 0 <= c.y < mat.Length1
  }

  /** Every position of an `n` by `m` grid. */
  ghost function Rect(n: int, m: int): (r: set<Cell>)
    ensures forall c: Cell :: c in r <==> 0 <= c.x < n && 0 <= c.y < m
  {
    var r := set i, j | 0 <= i < n && 0 <= j < m :: Cell(i, j);
    assert forall c: Cell :: 0 <= c.x < n && 0 <= c.y < m ==> c == Cell(c.x, c.y) && c in r;
    r
  }

  /** The neighbour of `c` in direction `k` of the solver's direction tables. */
  function Step(c: Cell, k: int): (r: Cell)
    requires 0 <= k < 4
    ensures Adjacent(c, r)
  {
    Cell(c.x + DX[k], c.y + DY[k])
  }

  /** `a` and `b` differ by one in exactly one coordinate. */
  predicate Adjacent(a: Cell, b: Cell)
  {
    (a.y == b.y && (b.x == a.x + 1 || b.x == a.x - 1)) ||
    (a.x == b.x && (b.y == a.y + 1 || b.y == a.y - 1))
  }

  /** The passability test of the solver: in bounds, and open or the exit.
      The bounds are tested first, so the cell is read only when it exists.
      Walls, the entrance and the path marks are never passable; the exit
      always is. */
  predicate Safe(mat: array2<char>, x: int, y: int): (r: bool)
    reads mat
    ensures r ==> 0 <= x < mat.Length0 && 0 <= y < mat.Length1 &&
                  mat[x, y] != WALL && mat[x, y] != ENTRANCE && mat[x, y] != MARK
    ensures 0 <= x < mat.Length0 && 0 <= y < mat.Length1 && mat[x, y] == EXIT ==> r
  {
    0 <= x < mat.Length0 && 0 <= y < mat.Length1 && (mat[x, y] == OPEN || mat[x, y] == EXIT)
  }

  function Last<T>(s: seq<T>): T
    requires |s| > 0
  {
    s[|s| - 1]
  }

  /** A route the solver could take from `from`: every step goes to an adjacent
      passable cell. The first cell itself need not be passable. A walk with
      `|p|` cells takes `|p| - 1` steps. */
  ghost predicate IsWalk(mat: array2<char>, p: seq<Cell>, from: Cell)
    reads mat
  {
    && |p| > 0
    && p[0] == from
    && forall k :: 0 < k < |p| ==> Adjacent(p[k - 1], p[k]) && Safe(mat, p[k].x, p[k].y)
  }

  /** Every adjacent cell is one of the four direction-table neighbours. */
  lemma AdjacentIsStep(a: Cell, b: Cell)
    requires Adjacent(a, b)
    ensures b == Step(a, 0) || b == Step(a, 1) || b == Step(a, 2) || b == Step(a, 3)
  {
  }
}
