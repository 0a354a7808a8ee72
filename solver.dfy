// Path solving: breadth-first search from a start cell over passable cells,
// then marking of the cells of the parent chain back from the end.

module Solver {
  import opened Grid

  /** What a breadth-first search has established so far, stated locally.
      `dist` holds the visited cells with the number of steps at which they
      were discovered, `processed` the cells whose four neighbours have all
      been scanned, and `level` the distance of the cell dequeued last. */
  ghost predicate Explored(mat: array2<char>, start: Cell, dist: map<Cell, nat>, processed: set<Cell>, level: nat)
    reads mat
  {
    && start in dist && dist[start] == 0
    && processed <= dist.Keys
    && (forall u, w :: u in processed && Adjacent(u, w) && Safe(mat, w.x, w.y) ==> w in dist && dist[w] <= dist[u] + 1)
    && (forall u :: u in dist && u !in processed ==> level <= dist[u])
    && (forall u :: u in dist ==> dist[u] <= level + 1)
  }

  /** The visited and parent tables: every visited cell lies in the grid, and
      every visited cell other than the start is passable and was discovered
      from an adjacent visited cell one step closer to the start. */
  ghost predicate ParentLinks(mat: array2<char>, parent: array2<Cell>, start: Cell, dist: map<Cell, nat>)
    reads mat, parent
  {
    && parent.Length0 == mat.Length0 && parent.Length1 == mat.Length1
    && start in dist && dist[start] == 0
    && (forall c :: c in dist ==> InGrid(mat, c))
    && (forall c {:trigger parent[c.x, c.y]} :: c in dist && c != start ==>
          var p := parent[c.x, c.y];
          p in dist && Adjacent(p, c) && Safe(mat, c.x, c.y) && dist[c] == dist[p] + 1)
  }

  /** No walk reaches a cell in fewer steps than the distance recorded for it,
      and a cell not yet visited lies more than `level` steps away. */
  lemma {:induction false} WalkLowerBound(mat: array2<char>, start: Cell, dist: map<Cell, nat>, processed: set<Cell>, level: nat, p: seq<Cell>)
    requires Explored(mat, start, dist, processed, level)
    requires IsWalk(mat, p, start)
    ensures Last(p) in dist ==> dist[Last(p)] <= |p| - 1
    ensures Last(p) !in dist ==> level + 1 <= |p| - 1
    decreases |p|
  {
    if |p| > 1 {
      var q := p[..|p| - 1];
      assert IsWalk(mat, q, start);
      WalkLowerBound(mat, start, dist, processed, level, q);
      assert Adjacent(Last(q), Last(p)) && Safe(mat, Last(p).x, Last(p).y);
    }
  }

  /** Once every visited cell has been processed, every walk from the start
      ends on a visited cell. */
  lemma {:induction false} WalkStaysInside(mat: array2<char>, start: Cell, dist: map<Cell, nat>, level: nat, p: seq<Cell>)
    requires Explored(mat, start, dist, dist.Keys, level)
    requires IsWalk(mat, p, start)
    ensures Last(p) in dist
    decreases |p|
  {
    if |p| > 1 {
      var q := p[..|p| - 1];
      assert IsWalk(mat, q, start);
      WalkStaysInside(mat, start, dist, level, q);
      assert Adjacent(Last(q), Last(p)) && Safe(mat, Last(p).x, Last(p).y);
    }
  }

  /** The parent chain from the start to a visited cell `v`: a walk with one
      step per unit of recorded distance, each cell the parent of the next. */
  ghost function Chain(mat: array2<char>, parent: array2<Cell>, start: Cell, dist: map<Cell, nat>, v: Cell): (r: seq<Cell>)
    reads mat, parent
    requires ParentLinks(mat, parent, start, dist) && v in dist
    ensures |r| == dist[v] + 1 && r[0] == start && Last(r) == v
    ensures IsWalk(mat, r, start)
    ensures forall k :: 0 <= k < |r| ==> r[k] in dist && dist[r[k]] == k
    ensures forall k :: 0 < k < |r| ==> parent[r[k].x, r[k].y] == r[k - 1]
    decreases dist[v]
  {
    if v == start then [start]
    else
      var p := parent[v.x, v.y];
      var r := Chain(mat, parent, start, dist, p) + [v];
      assert forall k :: 0 < k < |r| - 1 ==> r[k] == Chain(mat, parent, start, dist, p)[k];
      r
  }

  /** The visited table mirrors the set of discovered cells, and the parent
      table links them back to the start. */
  ghost predicate Tables(mat: array2<char>, visited: array2<bool>, parent: array2<Cell>, start: Cell, dist: map<Cell, nat>)
    reads mat, visited, parent
  {
    && visited.Length0 == mat.Length0 && visited.Length1 == mat.Length1
    && (forall i, j {:trigger visited[i, j]} :: 0 <= i < mat.Length0 && 0 <= j < mat.Length1 ==> (visited[i, j] <==> Cell(i, j) in dist))
    && ParentLinks(mat, parent, start, dist)
  }

  /** The queue holds discovered, unprocessed cells without repetition, in
      non-decreasing order of distance, each at distance `level` or `level + 1`. */
  ghost predicate QueueOrdered(q: seq<Cell>, dist: map<Cell, nat>, processed: set<Cell>, level: nat)
  {
    && (forall k :: 0 <= k < |q| ==> q[k] in dist && q[k] !in processed && level <= dist[q[k]] <= level + 1)
    && (forall k, l :: 0 <= k < l < |q| ==> dist[q[k]] <= dist[q[l]] && q[k] != q[l])
  }

  /** Discovering a new cell one step beyond the current level keeps the
      search's local facts. */
  lemma ExploredDiscover(mat: array2<char>, start: Cell, dist: map<Cell, nat>, processed: set<Cell>, level: nat, w: Cell)
    requires Explored(mat, start, dist, processed, level) && w !in dist
    ensures Explored(mat, start, dist[w := level + 1], processed, level)
  {
  }

  /** Dequeuing the front of the queue raises the level to its distance. */
  lemma ExploredDequeue(mat: array2<char>, start: Cell, dist: map<Cell, nat>, processed: set<Cell>, level: nat, q: seq<Cell>)
    requires Explored(mat, start, dist, processed, level) && QueueOrdered(q, dist, processed, level) && |q| > 0
    requires forall c :: c in dist && c !in processed ==> c in q
    ensures Explored(mat, start, dist, processed, dist[q[0]]) && QueueOrdered(q[1..], dist, processed, dist[q[0]])
    ensures level <= dist[q[0]]
  {
  }

  /** A cell whose four neighbours have all been scanned becomes processed. */
  lemma ExploredFinish(mat: array2<char>, start: Cell, dist: map<Cell, nat>, processed: set<Cell>, level: nat, current: Cell)
    requires Explored(mat, start, dist, processed, level) && current in dist && dist[current] == level
    requires forall k :: 0 <= k < 4 && Safe(mat, Step(current, k).x, Step(current, k).y) ==> Step(current, k) in dist
    ensures Explored(mat, start, dist, processed + {current}, level)
  {
    forall w | Adjacent(current, w) && Safe(mat, w.x, w.y)
      ensures w in dist && dist[w] <= dist[current] + 1
    {
      AdjacentIsStep(current, w);
    }
  }

  /** Discovering `next` from `current` keeps every fact the scan relies on. */
  lemma DiscoverKeeps(mat: array2<char>, start: Cell, current: Cell, next: Cell, q: seq<Cell>, dist: map<Cell, nat>,
                      order: seq<Cell>, processed: set<Cell>, level: nat)
    requires Explored(mat, start, dist, processed, level)
    requires QueueOrdered(q, dist, processed, level)
    requires current in dist && current !in q && dist[current] == level
    requires forall c :: c in dist && c !in processed ==> c in q || c == current
    requires EnqueuedOnce(mat, start, order, dist)
    requires next !in dist && Safe(mat, next.x, next.y)
    ensures Explored(mat, start, dist[next := level + 1], processed, level)
    ensures QueueOrdered(q + [next], dist[next := level + 1], processed, level)
    ensures current !in q + [next]
    ensures forall c :: c in dist[next := level + 1] && c !in processed ==> c in q + [next] || c == current
    ensures EnqueuedOnce(mat, start, order + [next], dist[next := level + 1])
  {
    ExploredDiscover(mat, start, dist, processed, level, next);
  }

  /** Every cell discovered since `dist0` has `current` as its parent. */
  ghost predicate ParentedBy(parent: array2<Cell>, dist0: map<Cell, nat>, dist: map<Cell, nat>, current: Cell)
    reads parent
  {
    forall c {:trigger c in dist} :: c in dist && c !in dist0 ==>
      0 <= c.x < parent.Length0 && 0 <= c.y < parent.Length1 && parent[c.x, c.y] == current
  }

  /** Records a newly discovered cell in the visited and parent tables. */
  method Discover(mat: array2<char>, visited: array2<bool>, parent: array2<Cell>, start: Cell, current: Cell, next: Cell,
                  ghost dist: map<Cell, nat>, ghost dist': map<Cell, nat>, ghost base: map<Cell, nat>)
    requires Tables(mat, visited, parent, start, dist)
    requires current in dist && next !in dist && Adjacent(current, next) && Safe(mat, next.x, next.y)
    requires dist' == dist[next := dist[current] + 1]
    requires ParentedBy(parent, base, dist, current)
    modifies visited, parent
    ensures Tables(mat, visited, parent, start, dist')
    ensures ParentedBy(parent, base, dist', current)
    ensures visited[next.x, next.y] && parent[next.x, next.y] == current
    ensures forall i, j :: 0 <= i < mat.Length0 && 0 <= j < mat.Length1 && Cell(i, j) != next ==>
              visited[i, j] == old(visited[i, j]) && parent[i, j] == old(parent[i, j])
  {
    visited[next.x, next.y] := true;
    parent[next.x, next.y] := current;
    forall c | c in dist' && c != next
      ensures visited[c.x, c.y] == old(visited[c.x, c.y]) && parent[c.x, c.y] == old(parent[c.x, c.y])
    {
    }
    forall i, j | 0 <= i < mat.Length0 && 0 <= j < mat.Length1
      ensures visited[i, j] <==> Cell(i, j) in dist'
    {
      if (i, j) != (next.x, next.y) {
        assert visited[i, j] == old(visited[i, j]);
      }
    }
    assert ParentedBy(parent, base, dist', current);
    forall c | c in dist' && c != start
      ensures parent[c.x, c.y] in dist' && Adjacent(parent[c.x, c.y], c) && Safe(mat, c.x, c.y)
      ensures dist'[c] == dist'[parent[c.x, c.y]] + 1
    {
      if c != next {
        assert old(parent[c.x, c.y]) in dist;
      }
    }
  }

  /** The cells in the order they were enqueued: the start first, then
      passable cells only, none twice, and exactly the discovered cells. */
  ghost predicate EnqueuedOnce(mat: array2<char>, start: Cell, order: seq<Cell>, dist: map<Cell, nat>)
    reads mat
  {
    && |order| > 0 && order[0] == start
    && (forall c :: c in order <==> c in dist)
    && (forall a, b :: 0 <= a < b < |order| ==> order[a] != order[b])
    && (forall k :: 0 < k < |order| ==> Safe(mat, order[k].x, order[k].y))
  }

  /** What holds while the neighbours of the dequeued cell `current` are
      being scanned: `current` is discovered at the current level and is the
      one discovered, unprocessed cell that is no longer queued. */
  ghost predicate Scanning(mat: array2<char>, visited: array2<bool>, parent: array2<Cell>, start: Cell, current: Cell,
                           q: seq<Cell>, dist: map<Cell, nat>, order: seq<Cell>, processed: set<Cell>, level: nat)
    reads mat, visited, parent
  {
    && Tables(mat, visited, parent, start, dist)
    && Explored(mat, start, dist, processed, level)
    && QueueOrdered(q, dist, processed, level)
    && current in dist && current !in q && dist[current] == level
    && (forall c :: c in dist && c !in processed ==> c in q || c == current)
    && EnqueuedOnce(mat, start, order, dist)
  }

  /** A passable, unvisited neighbour `next` of `current` is marked visited,
      given `current` as parent and appended to the queue; `found` reports
      whether it is the end. */
  method Enqueue(mat: array2<char>, visited: array2<bool>, parent: array2<Cell>, start: Cell, end: Cell, current: Cell, next: Cell,
                 q0: seq<Cell>, ghost dist0: map<Cell, nat>, ghost order0: seq<Cell>, ghost processed: set<Cell>, ghost level: nat,
                 ghost base: map<Cell, nat>)
    returns (found: bool, q: seq<Cell>, ghost dist: map<Cell, nat>, ghost order: seq<Cell>)
    requires Scanning(mat, visited, parent, start, current, q0, dist0, order0, processed, level)
    requires ParentedBy(parent, base, dist0, current)
    requires Adjacent(current, next) && Safe(mat, next.x, next.y) && next !in dist0
    modifies visited, parent
    ensures Scanning(mat, visited, parent, start, current, q, dist, order, processed, level)
    ensures q == q0 + [next] && dist == dist0[next := level + 1] && order == order0 + [next]
    ensures visited[next.x, next.y] && parent[next.x, next.y] == current && found == (next == end)
    ensures forall i, j :: 0 <= i < mat.Length0 && 0 <= j < mat.Length1 && Cell(i, j) != next ==>
              visited[i, j] == old(visited[i, j]) && parent[i, j] == old(parent[i, j])
    ensures ParentedBy(parent, base, dist, current)
  {
    q := q0 + [next];
    dist := dist0[next := level + 1];
    order := order0 + [next];
    Discover(mat, visited, parent, start, current, next, dist0, dist, base);
    DiscoverKeeps(mat, start, current, next, q0, dist0, order0, processed, level);
    found := next.x == end.x && next.y == end.y;
  }

  /** One neighbour `next` of `current`: if it is passable and unvisited it
      is enqueued; otherwise nothing changes. */
  method Visit(mat: array2<char>, visited: array2<bool>, parent: array2<Cell>, start: Cell, end: Cell, current: Cell, next: Cell,
               q0: seq<Cell>, ghost dist0: map<Cell, nat>, ghost order0: seq<Cell>, ghost processed: set<Cell>, ghost level: nat,
               ghost base: map<Cell, nat>)
    returns (found: bool, q: seq<Cell>, ghost dist: map<Cell, nat>, ghost order: seq<Cell>)
    requires Scanning(mat, visited, parent, start, current, q0, dist0, order0, processed, level)
    requires ParentedBy(parent, base, dist0, current)
    requires Adjacent(current, next)
    requires end in dist0 ==> end == start
    modifies visited, parent
    ensures Scanning(mat, visited, parent, start, current, q, dist, order, processed, level)
    ensures Safe(mat, next.x, next.y) && next !in dist0 ==>
              && q == q0 + [next] && dist == dist0[next := level + 1] && order == order0 + [next]
              && parent[next.x, next.y] == current && found == (next == end)
    ensures !(Safe(mat, next.x, next.y) && next !in dist0) ==>
              q == q0 && dist == dist0 && order == order0 && !found
    ensures forall i, j :: 0 <= i < mat.Length0 && 0 <= j < mat.Length1 &&
                           (Cell(i, j) != next || !(Safe(mat, next.x, next.y) && next !in dist0)) ==>
              visited[i, j] == old(visited[i, j]) && parent[i, j] == old(parent[i, j])
    ensures ParentedBy(parent, base, dist, current)
    ensures found ==> end in dist && end != start
    ensures !found ==> end in dist ==> end == start
  {
    if Safe(mat, next.x, next.y) && !visited[next.x, next.y] {
      found, q, dist, order := Enqueue(mat, visited, parent, start, end, current, next, q0, dist0, order0, processed, level, base);
    } else {
      found, q, dist, order := false, q0, dist0, order0;
    }
  }

  /** The first `i` neighbours of `current` that are passable are discovered. */
  ghost predicate Covered(mat: array2<char>, current: Cell, dist: map<Cell, nat>, i: int)
    reads mat
  {
    forall k :: 0 <= k < i && k < 4 && Safe(mat, Step(current, k).x, Step(current, k).y) ==> Step(current, k) in dist
  }

  /** Discovering neighbour `i`, if passable, extends the covered prefix. */
  lemma CoveredMore(mat: array2<char>, current: Cell, before: map<Cell, nat>, dist: map<Cell, nat>, i: int)
    requires 0 <= i < 4 && Covered(mat, current, before, i) && before.Keys <= dist.Keys
    requires Safe(mat, Step(current, i).x, Step(current, i).y) ==> Step(current, i) in dist
    ensures Covered(mat, current, dist, i + 1)
  {
  }

  /** The scan so far has appended to `q0` exactly the cells discovered
      since, each one of the first `i` neighbours of `current`. */
  ghost predicate Appended(q0: seq<Cell>, dist0: map<Cell, nat>, q: seq<Cell>, dist: map<Cell, nat>, current: Cell, i: int)
  {
    && |q0| <= |q| && q[..|q0|] == q0 && dist0.Keys <= dist.Keys
    && (forall c :: c in q[|q0|..] <==> c in dist && c !in dist0)
    && (forall c :: c in dist && c !in dist0 ==> exists k :: 0 <= k < 4 && k < i && c == Step(current, k))
  }

  /** Visiting neighbour `i` extends what the scan has appended. */
  lemma AppendedMore(q0: seq<Cell>, dist0: map<Cell, nat>, qb: seq<Cell>, db: map<Cell, nat>,
                     q: seq<Cell>, dist: map<Cell, nat>, current: Cell, i: int, d: nat)
    requires 0 <= i < 4 && Appended(q0, dist0, qb, db, current, i)
    requires || (Step(current, i) !in db && q == qb + [Step(current, i)] && dist == db[Step(current, i) := d])
             || (q == qb && dist == db)
    ensures Appended(q0, dist0, q, dist, current, i + 1) && Appended(q0, dist0, q, dist, current, 4)
  {
    if q != qb {
      assert q[|q0|..] == qb[|q0|..] + [Step(current, i)];
    }
  }

  /** The scan of the four neighbours of the dequeued cell `current`, in the
      order down, up, right, left, stopping as soon as the end is discovered. */
  method ScanNeighbours(mat: array2<char>, visited: array2<bool>, parent: array2<Cell>, start: Cell, end: Cell, current: Cell,
                        q0: seq<Cell>, ghost dist0: map<Cell, nat>, ghost order0: seq<Cell>, ghost processed: set<Cell>, ghost level: nat)
    returns (found: bool, q: seq<Cell>, ghost dist: map<Cell, nat>, ghost order: seq<Cell>)
    requires Scanning(mat, visited, parent, start, current, q0, dist0, order0, processed, level)
    requires end in dist0 ==> end == start
    modifies visited, parent
    ensures Scanning(mat, visited, parent, start, current, q, dist, order, processed, level)
    ensures found ==> end in dist && end != start
    ensures !found ==> end in dist ==> end == start
    ensures !found ==> forall k :: 0 <= k < 4 && Safe(mat, Step(current, k).x, Step(current, k).y) ==> Step(current, k) in dist
    ensures Appended(q0, dist0, q, dist, current, 4)
    ensures ParentedBy(parent, dist0, dist, current)
    ensures forall c :: c in dist0 ==> dist[c] == dist0[c]
    ensures forall i, j :: 0 <= i < mat.Length0 && 0 <= j < mat.Length1 && !(Cell(i, j) in dist && Cell(i, j) !in dist0) ==>
              visited[i, j] == old(visited[i, j]) && parent[i, j] == old(parent[i, j])
  {
    found, q, dist, order := false, q0, dist0, order0;
    for i := 0 to 4
      invariant Scanning(mat, visited, parent, start, current, q, dist, order, processed, level)
      invariant Covered(mat, current, dist, i)
      invariant end in dist ==> end == start
      invariant Appended(q0, dist0, q, dist, current, i)
      invariant ParentedBy(parent, dist0, dist, current)
      invariant forall c :: c in dist0 ==> dist[c] == dist0[c]
      invariant forall i, j :: 0 <= i < mat.Length0 && 0 <= j < mat.Length1 && !(Cell(i, j) in dist && Cell(i, j) !in dist0) ==>
                  visited[i, j] == old(visited[i, j]) && parent[i, j] == old(parent[i, j])
    {
      var next := Cell(current.x + DX[i], current.y + DY[i]);
      assert next == Step(current, i);
      ghost var qb, before := q, dist;
      found, q, dist, order := Visit(mat, visited, parent, start, end, current, next, q, dist, order, processed, level, dist0);
      CoveredMore(mat, current, before, dist, i);
      AppendedMore(q0, dist0, qb, before, q, dist, current, i, level + 1);
      if found {
        break;
      }
    }
  }

  /** The facts the search loop keeps between iterations. Unless the end has
      been found, every discovered cell not yet processed is still queued. */
  ghost predicate Searching(mat: array2<char>, visited: array2<bool>, parent: array2<Cell>, start: Cell, end: Cell,
                            q: seq<Cell>, dist: map<Cell, nat>, order: seq<Cell>, processed: set<Cell>, level: nat, found: bool)
    reads mat, visited, parent
  {
    && Tables(mat, visited, parent, start, dist)
    && Explored(mat, start, dist, processed, level)
    && QueueOrdered(q, dist, processed, level)
    && (!found ==> forall c :: c in dist && c !in processed ==> c in q)
    && (found ==> end in dist && end != start)
    && (end in dist ==> found || end == start)
    && EnqueuedOnce(mat, start, order, dist)
  }

  /** Dequeuing the front of the queue starts the scan of its neighbours. */
  lemma BeginScan(mat: array2<char>, visited: array2<bool>, parent: array2<Cell>, start: Cell, end: Cell,
                  q: seq<Cell>, dist: map<Cell, nat>, order: seq<Cell>, processed: set<Cell>, level: nat)
    requires Searching(mat, visited, parent, start, end, q, dist, order, processed, level, false) && q != []
    ensures Scanning(mat, visited, parent, start, q[0], q[1..], dist, order, processed, dist[q[0]])
    ensures end in dist ==> end == start
  {
    ExploredDequeue(mat, start, dist, processed, level, q);
  }

  /** A scan that found the end, or that covered all four neighbours, leaves
      the search loop's facts in place; in the second case `current` is
      processed. */
  lemma EndScan(mat: array2<char>, visited: array2<bool>, parent: array2<Cell>, start: Cell, end: Cell, current: Cell,
                q: seq<Cell>, dist: map<Cell, nat>, order: seq<Cell>, processed: set<Cell>, level: nat, found: bool)
    requires Scanning(mat, visited, parent, start, current, q, dist, order, processed, level)
    requires found ==> end in dist && end != start
    requires !found ==> end in dist ==> end == start
    requires !found ==> forall k :: 0 <= k < 4 && Safe(mat, Step(current, k).x, Step(current, k).y) ==> Step(current, k) in dist
    ensures found ==> Searching(mat, visited, parent, start, end, q, dist, order, processed, level, true)
    ensures !found ==> Searching(mat, visited, parent, start, end, q, dist, order, processed + {current}, level, false)
    ensures current in dist
  {
    if !found {
      ExploredFinish(mat, start, dist, processed, level, current);
    }
  }

  /** The search loop of the solver: a FIFO queue seeded with the start,
      a visited table and a parent table; it runs until the queue is empty or
      the end has been discovered. The end is found exactly when it differs
      from the start and some walk reaches it; its recorded distance is then
      the length of the shortest walk. `order` lists the cells in the order
      they were enqueued. */
  method Search(mat: array2<char>, start: Cell, end: Cell)
    returns (found: bool, parent: array2<Cell>, ghost dist: map<Cell, nat>, ghost order: seq<Cell>)
    requires InGrid(mat, start)
    ensures found ==> start != end && end in dist && ParentLinks(mat, parent, start, dist)
    ensures found ==> forall p :: IsWalk(mat, p, start) && Last(p) == end ==> dist[end] <= |p| - 1
    ensures !found ==> start == end || forall p :: IsWalk(mat, p, start) ==> Last(p) != end
    ensures |order| > 0 && order[0] == start
    ensures forall c :: c in order <==> c in dist
    ensures found ==> end in order
    ensures forall a, b :: 0 <= a < b < |order| ==> order[a] != order[b]
    ensures forall k :: 0 < k < |order| ==> Safe(mat, order[k].x, order[k].y)
  {
    var n, m := mat.Length0, mat.Length1;
    var q: seq<Cell> := [start];
    found := false;
    var visited := new bool[n, m]((i, j) => false);
    parent := new Cell[n, m]((i, j) => NO_PARENT);
    visited[start.x, start.y] := true;
    dist := map[start := 0];
    order := [start];
    ghost var processed: set<Cell> := {};
    ghost var level: nat := 0;
    ghost var cells := Rect(mat.Length0, mat.Length1);

    while q != [] && !found
      invariant Searching(mat, visited, parent, start, end, q, dist, order, processed, level, found)
      invariant processed <= cells
      modifies visited, parent
      decreases cells - processed, !found
    {
      var current := q[0];
      BeginScan(mat, visited, parent, start, end, q, dist, order, processed, level);
      q := q[1..];
      level := dist[current];
      found, q, dist, order := ScanNeighbours(mat, visited, parent, start, end, current, q, dist, order, processed, level);
      EndScan(mat, visited, parent, start, end, current, q, dist, order, processed, level, found);
      if !found {
        processed := processed + {current};
      }
    }

    if found {
      forall p | IsWalk(mat, p, start) && Last(p) == end
        ensures dist[end] <= |p| - 1
      {
        WalkLowerBound(mat, start, dist, processed, level, p);
      }
    } else {
      forall p | IsWalk(mat, p, start)
        ensures Last(p) != end || start == end
      {
        WalkStaysInside(mat, start, dist, level, p);
      }
    }
  }

  /** The marking walk of the solver: from the parent of the end back to the
      start (exclusive), every cell of the parent chain is overwritten with
      the path mark. Exactly the chain's inner cells change. */
  method MarkPath(mat: array2<char>, parent: array2<Cell>, start: Cell, end: Cell, ghost dist: map<Cell, nat>)
    returns (ghost path: seq<Cell>)
    requires ParentLinks(mat, parent, start, dist) && end in dist && end != start
    modifies mat
    ensures path == old(Chain(mat, parent, start, dist, end))
    ensures forall i, j :: 0 <= i < mat.Length0 && 0 <= j < mat.Length1 ==>
              mat[i, j] == if Cell(i, j) in path[1..|path| - 1] then MARK else old(mat[i, j])
  {
    path := Chain(mat, parent, start, dist, end);
    ghost var k := |path| - 2;
    var step := parent[end.x, end.y];
    while step.x != -1 && step.y != -1 && !(step.x == start.x && step.y == start.y)
      invariant 0 <= k < |path| - 1 && step == path[k]
      invariant forall i, j :: 0 <= i < mat.Length0 && 0 <= j < mat.Length1 ==>
                  mat[i, j] == if Cell(i, j) in path[k + 1..|path| - 1] then MARK else old(mat[i, j])
      decreases k
    {
      mat[step.x, step.y] := MARK;
      step := parent[step.x, step.y];
      k := k - 1;
    }
  }

  /** The solver: search, then mark the path if the end was found. On success
      the marked cells are the inner cells of a shortest walk from start to end;
      otherwise the grid is left as it was. */
  method Bfs(mat: array2<char>, start: Cell, end: Cell) returns (found: bool, ghost path: seq<Cell>)
    requires InGrid(mat, start)
    modifies mat
    ensures found ==> start != end && |path| >= 2 && path[0] == start && Last(path) == end
    ensures found ==> old(IsWalk(mat, path, start))
    ensures found ==> forall p :: old(IsWalk(mat, p, start)) && Last(p) == end ==> |path| <= |p|
    ensures found ==> forall a, b :: 0 <= a < b < |path| ==> path[a] != path[b]
    ensures found ==> forall i, j :: 0 <= i < mat.Length0 && 0 <= j < mat.Length1 ==>
                        mat[i, j] == if Cell(i, j) in path[1..|path| - 1] then MARK else old(mat[i, j])
    ensures !found ==> forall i, j :: 0 <= i < mat.Length0 && 0 <= j < mat.Length1 ==> mat[i, j] == old(mat[i, j])
    ensures !found <==> start == end || forall p :: old(IsWalk(mat, p, start)) ==> Last(p) != end
  {
    var parent: array2<Cell>;
    ghost var dist: map<Cell, nat>, order: seq<Cell>;
    found, parent, dist, order := Search(mat, start, end);
    if found {
      ghost var chain := Chain(mat, parent, start, dist, end);
      path := MarkPath(mat, parent, start, end, dist);
      assert path == chain;
    } else {
      path := [];
    }
  }
}
