// What a generated maze looks like to the solver: which cells are passable,
// that the border stays walled, and that every open cell, the exit among
// them, can be walked to from the entrance along the carving tree.

module Maze {
  import opened Grid
  import opened Generator

  /** After generation the exit holds 'S', the entrance holds 'E' unless it
      is the exit too (a 3 by 3 grid), and every cell holds a wall, a space,
      'E' or 'S'. */
  lemma DrawnCells(mat: array2<char>, walls: set<Cell>)
    requires OddDims(mat.Length0, mat.Length1) && Drawing(mat, walls)
    ensures mat[mat.Length0 - 2, mat.Length1 - 2] == EXIT
    ensures ExitOf(mat.Length0, mat.Length1) != ROOT ==> mat[1, 1] == ENTRANCE
    ensures mat.Length0 == 3 && mat.Length1 == 3 ==> mat[1, 1] == EXIT
    ensures forall i, j :: 0 <= i < mat.Length0 && 0 <= j < mat.Length1 ==>
      mat[i, j] in {WALL, OPEN, ENTRANCE, EXIT}
  {
    assert mat[1, 1] == Drawn(mat.Length0, mat.Length1, walls, ROOT);
    assert mat[mat.Length0 - 2, mat.Length1 - 2] == Drawn(mat.Length0, mat.Length1, walls, ExitOf(mat.Length0, mat.Length1));
  }

  /** On a drawn maze the solver's passability test holds exactly at the
      exit and at the open cells other than the entrance. */
  lemma SafeDrawn(mat: array2<char>, walls: set<Cell>, c: Cell)
    requires Drawing(mat, walls)
    ensures Safe(mat, c.x, c.y) <==>
      InGrid(mat, c) && (c == ExitOf(mat.Length0, mat.Length1) || (c != ROOT && c !in walls))
  {
    if InGrid(mat, c) {
      assert mat[c.x, c.y] == Drawn(mat.Length0, mat.Length1, walls, Cell(c.x, c.y));
    }
  }

  /** The cells of the outer ring are never carved and never stamped. */
  lemma BorderWalls(mat: array2<char>, walls: set<Cell>, tree: map<Cell, Cell>, depth: map<Cell, nat>, c: Cell)
    requires Generated(mat.Length0, mat.Length1, walls, tree, depth) && Drawing(mat, walls)
    requires InGrid(mat, c) && (c.x == 0 || c.x == mat.Length0 - 1 || c.y == 0 || c.y == mat.Length1 - 1)
    ensures mat[c.x, c.y] == WALL
  {
    assert c !in walls ==> Carvable(mat.Length0, mat.Length1, walls, c);
    assert mat[c.x, c.y] == Drawn(mat.Length0, mat.Length1, walls, Cell(c.x, c.y));
  }

  /** The cell between a room and a room carved from it is inside the grid,
      adjacent to both, and neither a room nor the root. */
  lemma MidFacts(n: int, m: int, p: Cell, c: Cell)
    requires IsRoom(n, m, p) && IsRoom(n, m, c) && c in Jumps(p)
    ensures Adjacent(p, Mid(p, c)) && Adjacent(Mid(p, c), c)
    ensures 0 <= Mid(p, c).x < n && 0 <= Mid(p, c).y < m
    ensures !IsRoom(n, m, Mid(p, c)) && Mid(p, c) != ROOT
  {
    JumpFacts(p, c);
  }

  /** The exit is a room. */
  lemma ExitIsRoom(n: int, m: int)
    requires OddDims(n, m)
    ensures IsRoom(n, m, ExitOf(n, m))
  {
  }

  /** `r` starts at the root and each later step moves to an adjacent cell
      of the grid that is open and is not the root. */
  ghost predicate OpenRoute(n: int, m: int, walls: set<Cell>, r: seq<Cell>)
  {
    && |r| > 0 && r[0] == ROOT
    && forall k :: 0 < k < |r| ==>
         Adjacent(r[k - 1], r[k]) && 0 <= r[k].x < n && 0 <= r[k].y < m && r[k] !in walls && r[k] != ROOT
  }

  /** One more step to an adjacent open cell extends an open route. */
  lemma ExtendRoute(n: int, m: int, walls: set<Cell>, r: seq<Cell>, c: Cell)
    requires OpenRoute(n, m, walls, r)
    requires Adjacent(Last(r), c) && 0 <= c.x < n && 0 <= c.y < m && c !in walls && c != ROOT
    ensures OpenRoute(n, m, walls, r + [c])
  {
    var r' := r + [c];
    assert forall k :: 0 <= k < |r| ==> r'[k] == r[k];
  }

  /** On a drawn maze an open route is a walk of the solver from the entrance. */
  lemma RouteIsWalk(mat: array2<char>, walls: set<Cell>, r: seq<Cell>)
    requires Drawing(mat, walls) && OpenRoute(mat.Length0, mat.Length1, walls, r)
    ensures IsWalk(mat, r, ROOT)
  {
    forall k | 0 < k < |r|
      ensures Safe(mat, r[k].x, r[k].y)
    {
      SafeDrawn(mat, walls, r[k]);
    }
  }

  /** The route from the root down the carving tree to room `c`, two steps
      per room. */
  ghost function Route(n: int, m: int, walls: set<Cell>, tree: map<Cell, Cell>, depth: map<Cell, nat>, c: Cell): (r: seq<Cell>)
    requires Tree(walls, Rooms(n, m), tree, depth)
    requires forall d {:trigger IsRoom(n, m, d)} :: IsRoom(n, m, d) ==> d !in walls
    requires IsRoom(n, m, c)
    ensures c in depth && |r| == 2 * depth[c] + 1
    ensures OpenRoute(n, m, walls, r) && Last(r) == c
    decreases if c in depth then depth[c] else 0
  {
    assert c in Rooms(n, m);
    if c == ROOT then [ROOT]
    else
      var p := tree[c];
      assert p in Rooms(n, m);
      MidFacts(n, m, p, c);
      var q := Route(n, m, walls, tree, depth, p);
      ExtendRoute(n, m, walls, q, Mid(p, c));
      ExtendRoute(n, m, walls, q + [Mid(p, c)], c);
      q + [Mid(p, c)] + [c]
  }

  /** A cell with one even coordinate that is open lies next to an open room. */
  ghost function Side(c: Cell): Cell
  {
    if c.x % 2 == 1 then Cell(c.x, c.y - 1) else Cell(c.x - 1, c.y)
  }

  lemma SideFacts(n: int, m: int, walls: set<Cell>, c: Cell)
    requires Carvable(n, m, walls, c) && !IsRoom(n, m, c) && 0 <= c.x < n && 0 <= c.y < m
    ensures IsRoom(n, m, Side(c)) && Adjacent(Side(c), c) && c != ROOT
  {
  }

  /** Every open cell of a generated maze can be walked to from the
      entrance, through passable cells only. */
  lemma Reachable(mat: array2<char>, walls: set<Cell>, tree: map<Cell, Cell>, depth: map<Cell, nat>, c: Cell)
    requires Generated(mat.Length0, mat.Length1, walls, tree, depth) && Drawing(mat, walls)
    requires InGrid(mat, c) && c !in walls
    ensures exists p :: IsWalk(mat, p, ROOT) && Last(p) == c
  {
    var n, m := mat.Length0, mat.Length1;
    var p;
    if IsRoom(n, m, c) {
      p := Route(n, m, walls, tree, depth, c);
    } else {
      assert Carvable(n, m, walls, c);
      SideFacts(n, m, walls, c);
      var r := Route(n, m, walls, tree, depth, Side(c));
      ExtendRoute(n, m, walls, r, c);
      p := r + [c];
    }
    RouteIsWalk(mat, walls, p);
    assert IsWalk(mat, p, ROOT) && Last(p) == c;
  }

  /** In particular the exit can be walked to from the entrance. */
  lemma ExitReachable(mat: array2<char>, walls: set<Cell>, tree: map<Cell, Cell>, depth: map<Cell, nat>)
    requires Generated(mat.Length0, mat.Length1, walls, tree, depth) && Drawing(mat, walls)
    ensures exists p :: IsWalk(mat, p, ROOT) && Last(p) == ExitOf(mat.Length0, mat.Length1)
  {
    ExitIsRoom(mat.Length0, mat.Length1);
    Reachable(mat, walls, tree, depth, ExitOf(mat.Length0, mat.Length1));
  }
}
