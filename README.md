# Maze generation and solving

The program reads a number of rows and columns of rooms. It builds a grid of
characters, `2 * rows + 1` by `2 * cols + 1`, generates a maze in it, and then
searches a path from the entrance to the exit. It marks the path if one is
found.

- **Generation (`llenar`).** The generator fills the grid with walls (`'|'`).
  It then carves a randomised depth-first search from the room (1, 1), keeping
  the search path on an explicit stack. At each step it lists the rooms two
  cells away, in the order up, down, left, right, keeping those that are inside
  the grid and still walls. It picks one with `rand() % count`, opens it and
  the cell between, and pushes it. When no such room is left, it pops. Finally
  it stamps `'E'` at (1, 1) and then `'S'` at (n - 2, m - 2).
- **Passability (`seguro`).** A cell is passable when it is inside the grid
  and holds a space or `'S'`.
- **Solving (`bfs`).** The solver runs a breadth-first search from the start.
  It uses a FIFO queue, a visited table and a parent table, and scans the
  neighbours in the order down, up, right, left. It stops as soon as the end is
  discovered. It then walks the parent chain back from the end, writing `'o'`
  on every cell strictly between start and end.

The Dafny modules follow that structure:

- `Grid`: cells, the characters, `Safe` (the passability test) and walks.
- `Generator`: `Fill` and its three phases `FillWalls`, `Carve` and `Stamp`.
- `Maze`: what a generated maze looks like to the solver.
- `Solver`: `Search`, `MarkPath` and `Bfs`.
- `Program`: the call sequence of `main`.

Each random draw is an input. The t-th call of `rand()` returns `rand(t)` of a
function passed to the generator, and every property is proved for every such
function.

What is proved:

- **The generator carves a spanning tree of the rooms.**
  - Every room ends up open.
  - Every open cell lies inside the outer ring and is either a room or the cell
    between two open rooms.
  - There are exactly `2 * rooms - 1` open cells.
  - Every room hangs from (1, 1) by a chain of carvings.
  - So every open cell, the exit among them, can be walked to from the
    entrance (`Maze.Reachable`).
- **The solver is correct.**
  - It reports success exactly when the end differs from the start and is
    reachable.
  - On success, the cells it marks are the inner cells of a shortest walk,
    without repetition, and nothing else changes.
  - On failure, the grid is untouched.
- **Together (`Program.Run`).** The program finds a path on every maze except
  the 1 by 1 maze. There the exit and the entrance are the same cell: `'S'` is
  stamped over `'E'`, and the search, which never re-discovers its start cell,
  reports no solution.

## Model

| member | source | states |
|---|---|---|
| `Grid.Safe` | laberinto9_4.cpp:84-86 | the passability test reads a cell only inside the grid; walls, the entrance and path marks are never passable, and the exit always is |
| `Grid.Step` | laberinto9_4.cpp:109-110 | the neighbour in direction `k` of the direction tables is adjacent to the cell |
| `Grid.AdjacentIsStep` | laberinto9_4.cpp:97-98 | every cell adjacent to another is one of the four neighbours given by the direction tables |
| `Generator.WallNeighbours` | laberinto9_4.cpp:44-55 | the candidates are at most four, and are exactly the jumps of two cells that lie inside the grid and still hold a wall; each bound test equals "the jump is inside the grid" |
| `Generator.Mid` | laberinto9_4.cpp:60 | the cell the generator opens between a room and one of its jumps is adjacent to both; the coordinate sums are even, so the division is exact |
| `Generator.JumpFacts` | laberinto9_4.cpp:60 | the cell written between two rooms is adjacent to both, and the two rooms are its neighbours along its even coordinate |
| `Generator.MidIsWall` | laberinto9_4.cpp:60-61 | the cell between an open room and a walled candidate is still a wall, and differs from the candidate |
| `Generator.CarvableAfter` | laberinto9_4.cpp:60-61 | opening a candidate and the cell towards it keeps every open cell inside the ring and between open rooms |
| `Generator.TreeAfter` | laberinto9_4.cpp:59-62 | hanging the new room below the room it was carved from keeps the carving tree, one level deeper |
| `Generator.RoomsAfter` | laberinto9_4.cpp:60-61 | the two writes open exactly one more room |
| `Generator.CountAfter` | laberinto9_4.cpp:60-61 | the two writes open exactly two cells, keeping the open-cell count at twice the open rooms less one |
| `Generator.LayoutAfter` | laberinto9_4.cpp:57-62 | a carving step keeps the layout invariant, opens two cells and adds one room |
| `Generator.StackAfter` | laberinto9_4.cpp:62 | after the push the stack holds open rooms only, and every open room off the stack has no walled candidate |
| `Generator.CarveKeeps` | laberinto9_4.cpp:57-62 | a carving step from the top of the stack keeps the loop invariant and removes two walls |
| `Generator.BacktrackKeeps` | laberinto9_4.cpp:63-65 | popping a room with no candidates keeps the loop invariant |
| `Generator.InitialShape` | laberinto9_4.cpp:34-36 | the loop invariant holds with (1, 1) alone open and on the stack |
| `Generator.RoomOpen` | laberinto9_4.cpp:39-66 | if every open room has no walled candidate, every room is open |
| `Generator.Finished` | laberinto9_4.cpp:39-66 | when the stack runs empty, every room is open, the open cells number twice the rooms less one, and the tree spans the rooms |
| `Generator.Candidate` | laberinto9_4.cpp:57-59 | the chosen neighbour is a jump inside the grid that is still a wall |
| `Generator.NoCandidates` | laberinto9_4.cpp:57-64 | with no candidates the room has no walled jump inside the grid |
| `Generator.Knock` | laberinto9_4.cpp:60-61 | the two writes open exactly the cell between and the chosen room |
| `Generator.Stamp` | laberinto9_4.cpp:68-70 | after stamping, every cell holds the exit, the entrance, a wall or a space as the generator leaves it |
| `Generator.FillWalls` | laberinto9_4.cpp:26-31 | every cell of the grid holds a wall |
| `Generator.Carve` | laberinto9_4.cpp:33-66 | the carving loop terminates and leaves a spanning tree of the rooms, with the array holding walls exactly where the model's wall set says |
| `Generator.Fill` | laberinto9_4.cpp:25-71 | for every sequence of draws, the generated maze is a spanning tree of the rooms, drawn with entrance and exit |
| `Maze.DrawnCells` | laberinto9_4.cpp:68-70 | the exit holds 'S'; (1, 1) holds 'E' unless it is the exit, as on a 3 by 3 grid where 'S' wins; every cell holds one of the four generator characters |
| `Maze.SafeDrawn` | laberinto9_4.cpp:84-86 | on a generated maze the passability test holds exactly at the exit and at the open cells other than the entrance |
| `Maze.BorderWalls` | laberinto9_4.cpp:26-70 | the outer ring of the grid is never carved or stamped |
| `Maze.MidFacts` | laberinto9_4.cpp:60 | the cell between two rooms is inside the grid, adjacent to both, and not a room |
| `Maze.ExitIsRoom` | laberinto9_4.cpp:70 | the exit cell is a room |
| `Maze.ExtendRoute` | laberinto9_4.cpp:84-86 | a step to an adjacent open cell extends an open route |
| `Maze.RouteIsWalk` | laberinto9_4.cpp:84-86 | on a generated maze every open route from (1, 1) is a walk the solver can take |
| `Maze.Route` | laberinto9_4.cpp:57-62 | every room is reached from (1, 1) along the carving tree by an open route of two steps per tree level |
| `Maze.SideFacts` | laberinto9_4.cpp:60 | an open cell that is not a room lies next to a room |
| `Maze.Reachable` | laberinto9_4.cpp:25-71 | every open cell of a generated maze can be walked to from the entrance |
| `Maze.ExitReachable` | laberinto9_4.cpp:69-70 | the exit can be walked to from the entrance |
| `Solver.WalkLowerBound` | laberinto9_4.cpp:103-124 | no walk from the start reaches a discovered cell in fewer steps than its recorded distance, and no walk reaches an undiscovered cell within the current level |
| `Solver.WalkStaysInside` | laberinto9_4.cpp:103-124 | once the queue is drained, every walk from the start ends at a visited cell |
| `Solver.Chain` | laberinto9_4.cpp:129-133 | the parent chain of a visited cell is a walk from the start, one step per unit of distance, each cell the parent of the next |
| `Solver.ExploredDiscover` | laberinto9_4.cpp:113-116 | discovering a new cell one level beyond the current keeps the search's distance facts |
| `Solver.ExploredDequeue` | laberinto9_4.cpp:104-105 | dequeuing the front raises the level to its distance, and the queue stays ordered |
| `Solver.ExploredFinish` | laberinto9_4.cpp:108-124 | after all four neighbours are scanned, the cell's neighbours are all discovered within one step |
| `Solver.DiscoverKeeps` | laberinto9_4.cpp:113-116 | enqueuing a passable, unvisited neighbour keeps the queue ordered, without repetition, and covering the unprocessed cells |
| `Solver.Discover` | laberinto9_4.cpp:115-116 | the new cell is marked visited with `current` as its parent, every other entry of both tables keeps its value, the visited table marks exactly the discovered cells, and each has an adjacent parent one step closer to the start |
| `Solver.Enqueue` | laberinto9_4.cpp:113-122 | a passable, unvisited neighbour is appended to the queue, discovered one level beyond `current` with `current` as its parent, only its table entries change, and `found` is whether it is the end |
| `Solver.Visit` | laberinto9_4.cpp:109-123 | a passable, undiscovered neighbour is appended to the queue with `current` as its parent and `found` tells whether it is the end; any other neighbour (outside the grid, not passable, or already discovered) leaves the queue, both tables and the discovered set unchanged and `found` false; only a newly discovered `next` has its table entries written |
| `Solver.CoveredMore` | laberinto9_4.cpp:108-113 | scanning neighbour `i` extends the scanned prefix of discovered neighbours |
| `Solver.AppendedMore` | laberinto9_4.cpp:108-114 | visiting neighbour `i` keeps the queue's old prefix, and the appended cells stay exactly the newly discovered ones, each a neighbour of `current` |
| `Solver.ScanNeighbours` | laberinto9_4.cpp:108-124 | unless the end is found, every passable neighbour of the dequeued cell is discovered; the old queue is kept as a prefix, the appended cells are exactly the newly discovered ones, each is one of the four neighbours and has `current` as its parent; earlier distances are unchanged, and the visited and parent entries of every cell not newly discovered keep their old values |
| `Solver.BeginScan` | laberinto9_4.cpp:104-105 | dequeuing starts the scan with the scan facts in place |
| `Solver.EndScan` | laberinto9_4.cpp:107-124 | after the scan, the cell is processed, or the end was found |
| `Solver.Search` | laberinto9_4.cpp:89-125 | the end is found exactly when it differs from the start and some walk reaches it; its recorded distance is then the length of a shortest walk; the enqueued cells are exactly the discovered ones, the end among them on success, each enqueued at most once and only when passable |
| `Solver.MarkPath` | laberinto9_4.cpp:128-133 | the marking loop terminates; exactly the inner cells of the parent chain become 'o', and no other cell changes |
| `Solver.Bfs` | laberinto9_4.cpp:89-138 | success holds exactly when the end differs from the start and is reachable; then the marked cells are the inner cells of a shortest, repetition-free walk from start to end, and on failure the grid is unchanged |
| `Program.Run` | laberinto9_4.cpp:149-164 | on the grid built from rows and columns, generation followed by search finds a path unless the maze has a single room |

## Left out

- `reservar` and `liberar` (allocation and release of the row arrays): the grid is a Dafny `array2<char>` allocated by `Program.Run`.
- `mostrar` and all console input and output: printing has no behaviour to prove.
- `srand(time(0))` and the distribution of `rand()`: each draw is an arbitrary natural number from a function passed in, so the properties hold for every sequence of draws. Uniformity is not modelled.
- `main` reads `N` and `M` without checking them. For zero rows or columns the grid is 1 cell wide and line 36 writes `mat[1][1]` outside it. For a negative count `N * 2 + 1` is negative, and the allocation in `reservar` fails before `llenar` runs. The model therefore requires at least one row and one column (`Program.Run`) and an odd grid of at least 3 by 3 (`Generator.Fill`).
- The `n`, `m`, `N`, `M` parameters of `llenar`, `seguro` and `bfs` are taken from the array's dimensions. The program always passes the allocated size.
- `Solver.Bfs`: requires the start cell to be inside the grid, since the source indexes its tables there without checking. The end cell is not required to be inside.
- `Solver.ScanNeighbours`: states which cells the scan appends and that each is a neighbour of `current`, not that they are appended in the order down, up, right, left.
- `Solver.Bfs`: states that the marked cells form a shortest walk, not which of several shortest walks the direction order selects.
- `Generator.Fill`: states the shape of every maze the generator can produce (a spanning tree of the rooms), not which maze a given sequence of draws produces.
- `Generator.Carve`: the stack is a Dafny sequence whose last element is the top.
- The generator's loop keeps its state in ghost sets and maps (the remaining walls, the carving tree and the depth of each room). These are tied to the array by `Mirror`.
