// Maze generation: fill the grid with walls, then carve a spanning tree of
// the rooms (the cells with two odd coordinates) by a randomised depth-first
// search that keeps its path on an explicit stack, then stamp the entrance
// and the exit.
//
// The carving loop is proved against the set of cells that are still walls:
// `Mirror` ties the array to that set, and `Shape` states what the search
// keeps true of it.

module Generator {
  import opened Grid

  /** The room the carving starts from; it becomes the entrance. */
  const ROOT: Cell := Cell(1, 1)

  /** The room stamped as the exit of an `n` by `m` grid. */
  function ExitOf(n: int, m: int): Cell
  {
    Cell(n - 2, m - 2)
  }

  /** The generator works on grids of odd size, at least 3 by 3: the size
      the program builds from a number of rows and columns. */
  predicate OddDims(n: int, m: int)
  {
    n >= 3 && m >= 3 && n % 2 == 1 && m % 2 == 1
  }

  /** A room of the maze: a cell with two odd coordinates. Walls are only
      knocked down between two rooms. */
  predicate IsRoom(n: int, m: int, c: Cell)
  {
    0 <= c.x < n && 0 <= c.y < m && c.x % 2 == 1 && c.y % 2 == 1
  }

  /** All rooms of an `n` by `m` grid. */
  ghost function Rooms(n: int, m: int): (r: set<Cell>)
    ensures forall c :: c in r <==> IsRoom(n, m, c)
  {
    set c | c in Rect(n, m) && IsRoom(n, m, c)
  }

  /** The four cells two steps away from `c`, in the order the generator
      inspects them: up, down, left, right. */
  function Jumps(c: Cell): seq<Cell>
  {
    [Cell(c.x - 2, c.y), Cell(c.x + 2, c.y), Cell(c.x, c.y - 2), Cell(c.x, c.y + 2)]
  }

  /** The cell half-way between two cells, as the generator computes it.
      Between a cell and one of its jumps the sum of the coordinates is even,
      so the division is exact and the cell lies next to both. */
  function Mid(a: Cell, b: Cell): (r: Cell)
    ensures b in Jumps(a) ==> Adjacent(a, r) && Adjacent(r, b)
  {
    Cell((a.x + b.x) / 2, (a.y + b.y) / 2)
  }

  /** The candidates the generator may carve into from `c`: the jumps that
      lie inside the grid and are still walls. Each bound test of the
      generator is exactly the test that the jump is inside the grid. */
  function WallNeighbours(mat: array2<char>, c: Cell): (r: seq<Cell>)
    reads mat
    requires InGrid(mat, c)
    ensures |r| <= 4
    ensures forall d :: d in r <==> d in Jumps(c) && InGrid(mat, d) && mat[d.x, d.y] == WALL
  {
    (if c.x > 1 && mat[c.x - 2, c.y] == WALL then [Cell(c.x - 2, c.y)] else []) +
    (if c.x < mat.Length0 - 2 && mat[c.x + 2, c.y] == WALL then [Cell(c.x + 2, c.y)] else []) +
    (if c.y > 1 && mat[c.x, c.y - 2] == WALL then [Cell(c.x, c.y - 2)] else []) +
    (if c.y < mat.Length1 - 2 && mat[c.x, c.y + 2] == WALL then [Cell(c.x, c.y + 2)] else [])
  }

  /** Between two rooms a jump apart lies one cell, adjacent to both, with
      one odd and one even coordinate; its two neighbours along the even
      coordinate are the two rooms. */
  lemma JumpFacts(c: Cell, d: Cell)
    requires d in Jumps(c) && c.x % 2 == 1 && c.y % 2 == 1
    ensures d.x % 2 == 1 && d.y % 2 == 1
    ensures Adjacent(c, Mid(c, d)) && Adjacent(Mid(c, d), d)
    ensures var h := Mid(c, d);
      || (h.x % 2 == 1 && h.y % 2 == 0 && {Cell(h.x, h.y - 1), Cell(h.x, h.y + 1)} == {c, d})
      || (h.x % 2 == 0 && h.y % 2 == 1 && {Cell(h.x - 1, h.y), Cell(h.x + 1, h.y)} == {c, d})
  {
    if d == Cell(c.x - 2, c.y) {
      assert Mid(c, d) == Cell(c.x - 1, c.y);
    } else if d == Cell(c.x + 2, c.y) {
      assert Mid(c, d) == Cell(c.x + 1, c.y);
    } else if d == Cell(c.x, c.y - 2) {
      assert Mid(c, d) == Cell(c.x, c.y - 1);
    } else {
      assert Mid(c, d) == Cell(c.x, c.y + 1);
    }
  }

  /** A room none of whose jumps inside the grid is still a wall: the search
      has nothing left to do there. */
  ghost predicate Exhausted(n: int, m: int, walls: set<Cell>, c: Cell)
  {
    forall d :: d in Jumps(c) && 0 <= d.x < n && 0 <= d.y < m ==> d !in walls
  }

  /** What holds of every open cell: it is inside the outer ring, it is not
      a corner between rooms, and when it lies between two rooms both rooms
      are open. */
  ghost predicate Carvable(n: int, m: int, walls: set<Cell>, c: Cell)
  {
    && 1 <= c.x <= n - 2 && 1 <= c.y <= m - 2
    && (c.x % 2 == 1 || c.y % 2 == 1)
    && (c.x % 2 == 1 && c.y % 2 == 0 ==> Cell(c.x, c.y - 1) !in walls && Cell(c.x, c.y + 1) !in walls)
    && (c.x % 2 == 0 && c.y % 2 == 1 ==> Cell(c.x - 1, c.y) !in walls && Cell(c.x + 1, c.y) !in walls)
  }

  /** `tree` maps every room of `nodes` except the root to the room it was
      carved from, through an open cell; `depth` counts the carvings from
      the root. */
  ghost predicate Tree(walls: set<Cell>, nodes: set<Cell>, tree: map<Cell, Cell>, depth: map<Cell, nat>)
  {
    && depth.Keys == nodes
    && tree.Keys == nodes - {ROOT}
    && ROOT in depth && depth[ROOT] == 0
    && forall c {:trigger tree[c]} :: c in tree ==>
         && tree[c] in depth && depth[c] == depth[tree[c]] + 1
         && c in Jumps(tree[c]) && Mid(tree[c], c) !in walls
  }

  /** The layout the carving keeps: `nodes` are exactly the open rooms,
      every open cell is carvable, and every room carved so far opened
      exactly two cells. */
  ghost predicate Layout(n: int, m: int, walls: set<Cell>, nodes: set<Cell>)
  {
    && OddDims(n, m)
    && walls <= Rect(n, m)
    && (forall c {:trigger Carvable(n, m, walls, c)} :: c in Rect(n, m) && c !in walls ==> Carvable(n, m, walls, c))
    && (forall c {:trigger c in nodes} :: c in nodes <==> IsRoom(n, m, c) && c !in walls)
    && ROOT in nodes
    && |walls| + 2 * |nodes| == |Rect(n, m)| + 1
  }

  /** The stack holds open rooms, and every open room off the stack is
      exhausted. */
  ghost predicate Frontier(n: int, m: int, stack: seq<Cell>, walls: set<Cell>, nodes: set<Cell>)
  {
    && (forall k :: 0 <= k < |stack| ==> stack[k] in nodes)
    && (forall c {:trigger Exhausted(n, m, walls, c)} :: c in nodes && c !in stack ==> Exhausted(n, m, walls, c))
  }

  /** What the carving loop keeps true. */
  ghost predicate Shape(n: int, m: int, stack: seq<Cell>, walls: set<Cell>, nodes: set<Cell>,
                        tree: map<Cell, Cell>, depth: map<Cell, nat>)
  {
    Layout(n, m, walls, nodes) && Frontier(n, m, stack, walls, nodes) && Tree(walls, nodes, tree, depth)
  }

  /** While carving, the array holds a wall exactly at the cells of `walls`
      and a space everywhere else. */
  ghost predicate Mirror(mat: array2<char>, walls: set<Cell>)
    reads mat
  {
    forall i, j :: 0 <= i < mat.Length0 && 0 <= j < mat.Length1 ==>
      mat[i, j] == if Cell(i, j) in walls then WALL else OPEN
  }

  /** The wall between an open room and a neighbour that is still a wall
      is itself still a wall, and is a different cell from the neighbour. */
  lemma MidIsWall(n: int, m: int, walls: set<Cell>, current: Cell, next: Cell)
    requires forall c {:trigger Carvable(n, m, walls, c)} :: c in Rect(n, m) && c !in walls ==> Carvable(n, m, walls, c)
    requires IsRoom(n, m, current) && current !in walls
    requires next in Jumps(current) && 0 <= next.x < n && 0 <= next.y < m && next in walls
    ensures Mid(current, next) in walls && Mid(current, next) != next
  {
    JumpFacts(current, next);
    var mid := Mid(current, next);
    assert mid !in walls ==> Carvable(n, m, walls, mid);
  }

  /** Fewer walls leave an open cell carvable. */
  lemma CarvableMono(n: int, m: int, walls: set<Cell>, walls': set<Cell>, c: Cell)
    requires walls' <= walls && Carvable(n, m, walls, c)
    ensures Carvable(n, m, walls', c)
  {
  }

  /** The cell between an open room and the room carved from it is carvable
      once both are open, and so is the new room. */
  lemma CarvableNew(n: int, m: int, walls': set<Cell>, current: Cell, next: Cell)
    requires OddDims(n, m)
    requires IsRoom(n, m, current) && current !in walls'
    requires next in Jumps(current) && 0 <= next.x < n && 0 <= next.y < m && next !in walls'
    ensures Carvable(n, m, walls', next) && Carvable(n, m, walls', Mid(current, next))
  {
    JumpFacts(current, next);
  }

  /** Opening a room and the wall towards it from an open room keeps every
      open cell carvable. */
  lemma CarvableAfter(n: int, m: int, walls: set<Cell>, current: Cell, next: Cell)
    requires OddDims(n, m)
    requires forall c {:trigger Carvable(n, m, walls, c)} :: c in Rect(n, m) && c !in walls ==> Carvable(n, m, walls, c)
    requires IsRoom(n, m, current) && current !in walls
    requires next in Jumps(current) && 0 <= next.x < n && 0 <= next.y < m
    ensures var walls' := walls - {Mid(current, next), next};
      forall c {:trigger Carvable(n, m, walls', c)} :: c in Rect(n, m) && c !in walls' ==> Carvable(n, m, walls', c)
  {
    var mid := Mid(current, next);
    var walls' := walls - {mid, next};
    CarvableNew(n, m, walls', current, next);
    forall c | c in Rect(n, m) && c !in walls'
      ensures Carvable(n, m, walls', c)
    {
      if c != mid && c != next {
        assert Carvable(n, m, walls, c);
        CarvableMono(n, m, walls, walls', c);
      }
    }
  }

  /** Fewer walls leave an exhausted room exhausted. */
  lemma ExhaustedAfter(n: int, m: int, walls: set<Cell>, walls': set<Cell>, c: Cell)
    requires walls' <= walls && Exhausted(n, m, walls, c)
    ensures Exhausted(n, m, walls', c)
  {
  }

  /** Hanging the new room below the room it was carved from keeps the tree. */
  lemma TreeAfter(walls: set<Cell>, nodes: set<Cell>, tree: map<Cell, Cell>, depth: map<Cell, nat>,
                  current: Cell, next: Cell)
    requires Tree(walls, nodes, tree, depth)
    requires current in nodes && next !in nodes && next in Jumps(current)
    ensures Tree(walls - {Mid(current, next), next}, nodes + {next},
                 tree[next := current], depth[next := depth[current] + 1])
  {
  }

  /** Opening a room and a cell that is not a room adds exactly that room
      to the open rooms. */
  lemma RoomsAfter(n: int, m: int, walls: set<Cell>, nodes: set<Cell>, mid: Cell, next: Cell)
    requires forall c {:trigger c in nodes} :: c in nodes <==> IsRoom(n, m, c) && c !in walls
    requires IsRoom(n, m, next) && !IsRoom(n, m, mid)
    ensures forall c {:trigger c in nodes + {next}} :: c in nodes + {next} <==> IsRoom(n, m, c) && c !in walls - {mid, next}
  {
    forall c
      ensures c in nodes + {next} <==> IsRoom(n, m, c) && c !in walls - {mid, next}
    {
      if c != next && c != mid {
        assert c in nodes <==> IsRoom(n, m, c) && c !in walls;
      }
    }
  }

  /** Opening two wall cells and one room keeps the count of open cells
      at twice the rooms less one. */
  lemma CountAfter(total: int, walls: set<Cell>, nodes: set<Cell>, mid: Cell, next: Cell)
    requires mid in walls && next in walls && mid != next && next !in nodes
    requires |walls| + 2 * |nodes| == total
    ensures |walls - {mid, next}| == |walls| - 2
    ensures |walls - {mid, next}| + 2 * |nodes + {next}| == total
  {
    assert walls - {mid, next} == (walls - {mid}) - {next};
  }

  /** Carving from an open room into a neighbour that is still a wall
      keeps the layout, opens exactly two cells and adds one room. */
  lemma LayoutAfter(n: int, m: int, walls: set<Cell>, nodes: set<Cell>, current: Cell, next: Cell)
    requires Layout(n, m, walls, nodes)
    requires current in nodes
    requires next in Jumps(current) && 0 <= next.x < n && 0 <= next.y < m && next in walls
    ensures next !in nodes
    ensures |walls - {Mid(current, next), next}| == |walls| - 2
    ensures Layout(n, m, walls - {Mid(current, next), next}, nodes + {next})
  {
    var mid := Mid(current, next);
    JumpFacts(current, next);
    MidIsWall(n, m, walls, current, next);
    CountAfter(|Rect(n, m)| + 1, walls, nodes, mid, next);
    CarvableAfter(n, m, walls, current, next);
    RoomsAfter(n, m, walls, nodes, mid, next);
  }

  /** Pushing the new room keeps the stack of open rooms and leaves every
      open room off the stack exhausted. */
  lemma StackAfter(n: int, m: int, stack: seq<Cell>, walls: set<Cell>, walls': set<Cell>,
                   nodes: set<Cell>, next: Cell)
    requires walls' <= walls
    requires Frontier(n, m, stack, walls, nodes)
    ensures Frontier(n, m, stack + [next], walls', nodes + {next})
  {
    forall c | c in nodes + {next} && c !in stack + [next]
      ensures Exhausted(n, m, walls', c)
    {
      assert Exhausted(n, m, walls, c);
      ExhaustedAfter(n, m, walls, walls', c);
    }
  }

  /** Carving from the top of the stack into a neighbour that is still a
      wall keeps the shape, opens exactly two cells and adds one room. */
  lemma CarveKeeps(n: int, m: int, stack: seq<Cell>, walls: set<Cell>, nodes: set<Cell>,
                   tree: map<Cell, Cell>, depth: map<Cell, nat>, current: Cell, next: Cell)
    requires Shape(n, m, stack, walls, nodes, tree, depth)
    requires |stack| > 0 && current == Last(stack)
    requires next in Jumps(current) && 0 <= next.x < n && 0 <= next.y < m && next in walls
    ensures current in depth
    ensures Shape(n, m, stack + [next], walls - {Mid(current, next), next}, nodes + {next},
                  tree[next := current], depth[next := depth[current] + 1])
    ensures |walls - {Mid(current, next), next}| == |walls| - 2
  {
    assert current in nodes;
    LayoutAfter(n, m, walls, nodes, current, next);
    StackAfter(n, m, stack, walls, walls - {Mid(current, next), next}, nodes, next);
    TreeAfter(walls, nodes, tree, depth, current, next);
  }

  /** Dropping an exhausted room from the top of the stack keeps the shape. */
  lemma BacktrackKeeps(n: int, m: int, stack: seq<Cell>, walls: set<Cell>, nodes: set<Cell>,
                       tree: map<Cell, Cell>, depth: map<Cell, nat>)
    requires Shape(n, m, stack, walls, nodes, tree, depth)
    requires |stack| > 0 && Exhausted(n, m, walls, Last(stack))
    ensures Shape(n, m, stack[..|stack| - 1], walls, nodes, tree, depth)
  {
    assert stack == stack[..|stack| - 1] + [Last(stack)];
  }

  /** The carving starts from the root alone open. */
  lemma InitialShape(n: int, m: int)
    requires OddDims(n, m)
    ensures Shape(n, m, [ROOT], Rect(n, m) - {ROOT}, {ROOT}, map[], map[ROOT := 0])
  {
    var walls := Rect(n, m) - {ROOT};
    assert ROOT in Rect(n, m);
    forall c | c in Rect(n, m) && c !in walls
      ensures Carvable(n, m, walls, c)
    {
      assert c == ROOT;
    }
  }

  /** Every room is reachable by jumps from the root through rooms, so when
      every open room is exhausted every room is open. */
  lemma {:induction false} RoomOpen(n: int, m: int, walls: set<Cell>, c: Cell)
    requires ROOT !in walls
    requires forall d {:trigger Exhausted(n, m, walls, d)} ::
      IsRoom(n, m, d) && d !in walls ==> Exhausted(n, m, walls, d)
    requires IsRoom(n, m, c)
    ensures c !in walls
    decreases c.x + c.y
  {
    if c.x > 1 {
      var p := Cell(c.x - 2, c.y);
      RoomOpen(n, m, walls, p);
      assert Exhausted(n, m, walls, p);
      assert c == Jumps(p)[1];
    } else if c.y > 1 {
      var p := Cell(c.x, c.y - 2);
      RoomOpen(n, m, walls, p);
      assert Exhausted(n, m, walls, p);
      assert c == Jumps(p)[3];
    }
  }

  /** What the generator leaves behind, stated on the cells it left as
      walls: every room is open, every open cell is carvable, the open
      cells are the rooms and one corridor fewer than the rooms, and the
      tree reaches every room from the root. */
  ghost predicate Generated(n: int, m: int, walls: set<Cell>, tree: map<Cell, Cell>, depth: map<Cell, nat>)
  {
    && OddDims(n, m)
    && walls <= Rect(n, m)
    && (forall c {:trigger IsRoom(n, m, c)} :: IsRoom(n, m, c) ==> c !in walls)
    && (forall c {:trigger Carvable(n, m, walls, c)} :: c in Rect(n, m) && c !in walls ==> Carvable(n, m, walls, c))
    && |Rect(n, m) - walls| == 2 * |Rooms(n, m)| - 1
    && Tree(walls, Rooms(n, m), tree, depth)
  }

  /** When the stack runs empty every room has been carved. */
  lemma Finished(n: int, m: int, walls: set<Cell>, nodes: set<Cell>, tree: map<Cell, Cell>, depth: map<Cell, nat>)
    requires Shape(n, m, [], walls, nodes, tree, depth)
    ensures Generated(n, m, walls, tree, depth)
  {
    forall d | IsRoom(n, m, d) && d !in walls
      ensures Exhausted(n, m, walls, d)
    {
      assert d in nodes;
    }
    forall c | IsRoom(n, m, c)
      ensures c !in walls
    {
      RoomOpen(n, m, walls, c);
    }
    assert nodes == Rooms(n, m);
  }

  /** The character the generator leaves at `c`: the exit, else the
      entrance, else a wall or a space. On a 3 by 3 grid the exit and the
      entrance are the same cell, and the exit, stamped last, wins. */
  function Drawn(n: int, m: int, walls: set<Cell>, c: Cell): char
  {
    if c == ExitOf(n, m) then EXIT
    else if c == ROOT then ENTRANCE
    else if c in walls then WALL
    else OPEN
  }

  /** The array holds, at every cell, the character the generator leaves there. */
  ghost predicate Drawing(mat: array2<char>, walls: set<Cell>)
    reads mat
  {
    forall i, j :: 0 <= i < mat.Length0 && 0 <= j < mat.Length1 ==>
      mat[i, j] == Drawn(mat.Length0, mat.Length1, walls, Cell(i, j))
  }

  /** A neighbour chosen from the candidates is a jump inside the grid that
      is still a wall. */
  lemma Candidate(mat: array2<char>, walls: set<Cell>, current: Cell, next: Cell)
    requires Mirror(mat, walls) && InGrid(mat, current)
    requires next in WallNeighbours(mat, current)
    ensures next in Jumps(current) && InGrid(mat, next) && next in walls
  {
  }

  /** With no candidates left the room is exhausted. */
  lemma NoCandidates(mat: array2<char>, walls: set<Cell>, current: Cell)
    requires Mirror(mat, walls) && InGrid(mat, current)
    requires WallNeighbours(mat, current) == []
    ensures Exhausted(mat.Length0, mat.Length1, walls, current)
  {
  }

  /** Knocks down the wall between `current` and `next` and opens `next`. */
  method Knock(mat: array2<char>, current: Cell, next: Cell, ghost walls: set<Cell>)
    requires Mirror(mat, walls)
    requires InGrid(mat, current) && InGrid(mat, next) && next in Jumps(current)
    modifies mat
    ensures Mirror(mat, walls - {Mid(current, next), next})
  {
    mat[(current.x + next.x) / 2, (current.y + next.y) / 2] := OPEN;
    mat[next.x, next.y] := OPEN;
  }

  /** Stamps the entrance at (1, 1) and then the exit at (n - 2, m - 2). */
  method Stamp(mat: array2<char>, ghost walls: set<Cell>)
    requires OddDims(mat.Length0, mat.Length1) && Mirror(mat, walls)
    modifies mat
    ensures Drawing(mat, walls)
  {
    mat[1, 1] := ENTRANCE;
    mat[mat.Length0 - 2, mat.Length1 - 2] := EXIT;
  }

  /** Fills every cell of the grid with a wall. */
  method FillWalls(mat: array2<char>)
    modifies mat
    ensures Mirror(mat, Rect(mat.Length0, mat.Length1))
  {
    for i := 0 to mat.Length0
      invariant forall a, b :: 0 <= a < i && 0 <= b < mat.Length1 ==> mat[a, b] == WALL
    {
      for j := 0 to mat.Length1
        invariant forall a, b :: 0 <= a < i && 0 <= b < mat.Length1 ==> mat[a, b] == WALL
        invariant forall b :: 0 <= b < j ==> mat[i, b] == WALL
      {
        mat[i, j] := WALL;
      }
    }
  }

  /** Carves the maze into a grid of walls by a randomised depth-first
      search from (1, 1) that keeps its path on a stack. The t-th random
      draw is `rand(t)`; the neighbour chosen is the draw modulo the number
      of candidates. */
  method Carve(mat: array2<char>, rand: nat -> nat)
    returns (ghost walls: set<Cell>, ghost tree: map<Cell, Cell>, ghost depth: map<Cell, nat>)
    requires OddDims(mat.Length0, mat.Length1)
    requires Mirror(mat, Rect(mat.Length0, mat.Length1))
    modifies mat
    ensures Generated(mat.Length0, mat.Length1, walls, tree, depth)
    ensures Mirror(mat, walls)
  {
    var n, m := mat.Length0, mat.Length1;
    var stack := [ROOT];
    mat[1, 1] := OPEN;
    walls := Rect(n, m) - {ROOT};
    ghost var nodes := {ROOT};
    tree, depth := map[], map[ROOT := 0];
    InitialShape(n, m);
    var draws: nat := 0;
    while stack != []
      invariant Shape(n, m, stack, walls, nodes, tree, depth)
      invariant Mirror(mat, walls)
      decreases 2 * |walls| + |stack|
    {
      var current := stack[|stack| - 1];
      assert current in nodes;
      var neighbours := WallNeighbours(mat, current);
      if neighbours != [] {
        var next := neighbours[rand(draws) % |neighbours|];
        draws := draws + 1;
        Candidate(mat, walls, current, next);
        CarveKeeps(n, m, stack, walls, nodes, tree, depth, current, next);
        Knock(mat, current, next, walls);
        walls := walls - {Mid(current, next), next};
        nodes := nodes + {next};
        tree, depth := tree[next := current], depth[next := depth[current] + 1];
        stack := stack + [next];
      } else {
        NoCandidates(mat, walls, current);
        BacktrackKeeps(n, m, stack, walls, nodes, tree, depth);
        stack := stack[..|stack| - 1];
      }
    }
    Finished(n, m, walls, nodes, tree, depth);
  }

  /** The generator: fill the grid with walls, carve the maze, stamp the
      entrance at (1, 1) and the exit at (n - 2, m - 2). */
  method Fill(mat: array2<char>, rand: nat -> nat)
    returns (ghost walls: set<Cell>, ghost tree: map<Cell, Cell>, ghost depth: map<Cell, nat>)
    requires OddDims(mat.Length0, mat.Length1)
    modifies mat
    ensures Generated(mat.Length0, mat.Length1, walls, tree, depth)
    ensures Drawing(mat, walls)
  {
    FillWalls(mat);
    walls, tree, depth := Carve(mat, rand);
    Stamp(mat, walls);
  }
}
