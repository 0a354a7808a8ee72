// The program's use of the two algorithms: generate a maze with a given
// number of rows and columns of rooms, then search a path through it from
// the entrance to the exit.

module Program {
  import opened Grid
  import opened Generator
  import opened Maze
  import opened Solver

  /** Builds a (2 rows + 1) by (2 cols + 1) grid, generates a maze in it and
      searches a path from (1, 1) to (n - 2, m - 2). The search succeeds on
      every maze but the 1 by 1 maze, whose entrance is its exit. */
  method Run(rows: int, cols: int, rand: nat -> nat) returns (found: bool)
    requires rows >= 1 && cols >= 1
    ensures found <==> !(rows == 1 && cols == 1)
  {
    var n := rows * 2 + 1;
    var m := cols * 2 + 1;
    var mat := new char[n, m];
    ghost var walls, tree, depth := Fill(mat, rand);
    ExitReachable(mat, walls, tree, depth);
    ghost var path;
    found, path := Bfs(mat, ROOT, ExitOf(n, m));
  }
}
